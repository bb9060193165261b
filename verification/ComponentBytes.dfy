/** The bytes one refined component hashes, and why the order in which its
    members are listed cannot show in them. */
module ComponentBytes {
  import opened Common
  import opened Bytes
  import opened Sequences
  import opened Refinement
  import opened RefinementLaws

  /** A piece of canonical member bytes: plain bytes, a reference that leaves
      the component, or one reference to a member of the same component. */
  datatype Token = Fixed(bytes: Text) | Outside(tag: byte, digest: Text) | Hole(target: nat)

  type Member = seq<Token>

  /** How references inside the component are written: by one placeholder in
      the first round, by the colours of their targets in the final one. */
  datatype Round = First | Final(colours: seq<nat>)

  const PLACEHOLDER: Text := [0x04]
  const COLOUR_TAG: Text := [0x01]

  predicate HolesIn(m: Member, n: nat) {
    forall k :: 0 <= k < |m| ==> m[k].Hole? ==> m[k].target < n
  }

  predicate Written(m: Member, round: Round) {
    round.Final? ==> HolesIn(m, |round.colours|)
  }

  function TokenBytes(t: Token, round: Round): Text
    requires Written([t], round)
  {
    match t
    case Fixed(b) => b
    case Outside(tag, digest) => [tag] + digest
    case Hole(target) =>
      match round
      case First => PLACEHOLDER
      case Final(colours) =>
        assert [t][0] == t;
        COLOUR_TAG + Le(colours[target], 4)
  }

  lemma WrittenParts(m: Member, round: Round)
    requires Written(m, round) && m != []
    ensures Written([m[0]], round) && Written(m[1..], round)
  {
  }

  function MemberBytes(m: Member, round: Round): Text
    requires Written(m, round)
  {
    if m == [] then []
    else
      WrittenParts(m, round);
      TokenBytes(m[0], round) + MemberBytes(m[1..], round)
  }

  /** The first-round bytes: one placeholder per in-component reference. */
  function BaseBytes(m: Member): Text {
    MemberBytes(m, First)
  }

  /** The final bytes: each reference by the colour of its target. */
  function EmitBytes(m: Member, colours: seq<nat>): Text
    requires HolesIn(m, |colours|)
  {
    MemberBytes(m, Final(colours))
  }

  /** The references in position order. */
  function RefsOf(m: Member): seq<nat> {
    if m == [] then [] else (if m[0].Hole? then [m[0].target] else []) + RefsOf(m[1..])
  }

  /** The member with the names of its references erased. */
  function Skeleton(m: Member): (s: Member)
    ensures |s| == |m|
  {
    if m == [] then [] else [if m[0].Hole? then Hole(0) else m[0]] + Skeleton(m[1..])
  }

  // -------------------------------------------------------- what bytes show

  /** What a reader of the bytes learns of one token. */
  datatype Seen = Bytes(bytes: Text) | Away(tag: byte, digest: Text) | Blank | Coloured(colour: nat)

  ghost function Shown(t: Token, round: Round): Seen
    requires Written([t], round)
  {
    match t
    case Fixed(b) => Bytes(b)
    case Outside(tag, digest) => Away(tag, digest)
    case Hole(target) =>
      assert [t][0] == t;
      if round.First? then Blank else Coloured(round.colours[target])
  }

  ghost function ShownAll(m: Member, round: Round): (seen: seq<Seen>)
    requires Written(m, round)
    ensures |seen| == |m|
  {
    if m == [] then []
    else
      WrittenParts(m, round);
      [Shown(m[0], round)] + ShownAll(m[1..], round)
  }

  /** What stands next in a member encoding. */
  datatype Field = Plain(width: nat) | Reference | End

  /** An encoding in which the bytes so far decide what stands next: fields of
      fixed width, counts and lengths ahead of what they measure, and one tag
      ahead of each reference. */
  type Layout = Text -> Field

  /** Read one reference: its tag says what it is and how long it is. */
  ghost function ReadReference(b: Text): Option<(Seen, nat)> {
    if b == [] then None
    else if b[0] in {0x00, 0x02} && |b| >= 33 then Some((Away(b[0], b[1..33]), 33))
    else if b[0] == 0x03 && |b| >= 5 then Some((Away(b[0], b[1..5]), 5))
    else if b[0] == 0x01 && |b| >= 5 then Some((Coloured(FromLe32(b[1..5])), 5))
    else if b[0] == 0x04 then Some((Blank, 1))
    else None
  }

  ghost function ReadField(field: Field, b: Text): (r: Option<(Seen, nat)>)
    ensures r.Some? ==> 0 < r.value.1 <= |b|
  {
    match field
    case End => None
    case Plain(width) => if 0 < width <= |b| then Some((Bytes(b[..width]), width)) else None
    case Reference => ReadReference(b)
  }

  /** Read a member to the end of its bytes. */
  ghost function ReadMember(layout: Layout, before: Text, b: Text): Option<seq<Seen>>
    decreases |b|
  {
    if layout(before).End? then (if b == [] then Some([]) else None)
    else
      match ReadField(layout(before), b)
      case None => None
      case Some((seen, width)) =>
        match ReadMember(layout, before + b[..width], b[width..])
        case None => None
        case Some(rest) => Some([seen] + rest)
  }

  /** The forms of a reference that leaves the component, told apart by their
      tags: a definition hash, a closure body digest, a cycle marker. */
  predicate IsOutside(tag: byte, digest: Text) {
    (tag in {0x00, 0x02} && |digest| == 32) || (tag == 0x03 && |digest| == 4)
  }

  /** The token is what the field asks for. */
  ghost predicate Fits(field: Field, t: Token, round: Round) {
    match field
    case End => false
    case Plain(width) => t.Fixed? && |t.bytes| == width > 0
    case Reference =>
      && !t.Fixed? && (t.Outside? ==> IsOutside(t.tag, t.digest))
      && (t.Hole? && round.Final? ==> t.target < |round.colours| && round.colours[t.target] < U32_LIMIT)
  }

  /** The member spells out the layout from the bytes `before` it on. */
  ghost predicate Follows(layout: Layout, before: Text, m: Member, round: Round)
    requires Written(m, round)
    decreases |m|
  {
    if m == [] then layout(before).End?
    else
      WrittenParts(m, round);
      Fits(layout(before), m[0], round) && Follows(layout, before + TokenBytes(m[0], round), m[1..], round)
  }

  lemma ReadFieldBack(field: Field, t: Token, round: Round, rest: Text)
    requires Written([t], round) && Fits(field, t, round)
    ensures ReadField(field, TokenBytes(t, round) + rest) == Some((Shown(t, round), |TokenBytes(t, round)|))
  {
    hide FromLe32;
    var b := TokenBytes(t, round);
    assert (b + rest)[..|b|] == b;
    if t.Outside? {
      assert (b + rest)[1..|b|] == b[1..] == t.digest;
    } else if t.Hole? && round.Final? {
      var colour := round.colours[t.target];
      assert (b + rest)[1..5] == b[1..5] == Le32(colour);
      Le32RoundTrip(colour);
    }
  }

  /** Reading the bytes of a member shows its fields, its outside references
      and, for each reference inside, the blank or the colour. */
  lemma {:induction false} ReadBack(layout: Layout, before: Text, m: Member, round: Round)
    requires Written(m, round) && Follows(layout, before, m, round)
    ensures ReadMember(layout, before, MemberBytes(m, round)) == Some(ShownAll(m, round))
    decreases |m|
  {
    hide Fits, Shown, TokenBytes, ReadField;
    if m != [] {
      WrittenParts(m, round);
      var b, rest := TokenBytes(m[0], round), MemberBytes(m[1..], round);
      NotEnd(layout(before), m[0], round);
      ReadFieldBack(layout(before), m[0], round, rest);
      assert (b + rest)[..|b|] == b && (b + rest)[|b|..] == rest;
      ReadBack(layout, before + b, m[1..], round);
    }
  }

  lemma NotEnd(field: Field, t: Token, round: Round)
    requires Fits(field, t, round)
    ensures !field.End?
  {
  }

  /** What is shown determines the bytes. */
  lemma {:induction false} ShownBytes(a: Member, x: Round, b: Member, y: Round)
    requires Written(a, x) && Written(b, y) && ShownAll(a, x) == ShownAll(b, y)
    ensures MemberBytes(a, x) == MemberBytes(b, y)
    decreases |a|
  {
    assert |a| == |ShownAll(a, x)| == |b|;
    if a != [] {
      WrittenParts(a, x);
      WrittenParts(b, y);
      assert Shown(a[0], x) == ShownAll(a, x)[0] == ShownAll(b, y)[0] == Shown(b[0], y);
      assert ShownAll(a[1..], x) == ShownAll(a, x)[1..] == ShownAll(b, y)[1..] == ShownAll(b[1..], y);
      ShownBytes(a[1..], x, b[1..], y);
    }
  }

  /** Members of one layout have equal bytes exactly when they show the same. */
  lemma BytesExact(layout: Layout, a: Member, x: Round, b: Member, y: Round)
    requires Written(a, x) && Written(b, y) && Follows(layout, [], a, x) && Follows(layout, [], b, y)
    ensures MemberBytes(a, x) == MemberBytes(b, y) <==> ShownAll(a, x) == ShownAll(b, y)
  {
    hide Follows, ReadMember, MemberBytes, ShownAll;
    if MemberBytes(a, x) == MemberBytes(b, y) {
      ReadBack(layout, [], a, x);
      ReadBack(layout, [], b, y);
    } else if ShownAll(a, x) == ShownAll(b, y) {
      ShownBytes(a, x, b, y);
    }
  }

  /** The references of the two members have equal colours, place by place. */
  ghost predicate SameColours(a: Member, c: seq<nat>, b: Member, d: seq<nat>)
    requires HolesIn(a, |c|) && HolesIn(b, |d|)
  {
    RefsInRange(a, |c|);
    RefsInRange(b, |d|);
    |RefsOf(a)| == |RefsOf(b)| && forall k :: 0 <= k < |RefsOf(a)| ==> c[RefsOf(a)[k]] == d[RefsOf(b)[k]]
  }

  /** In the first round a member shows its skeleton; in the final round it
      also shows the colours of its references. */
  lemma {:induction false} ShownExact(a: Member, x: Round, b: Member, y: Round)
    requires Written(a, x) && Written(b, y) && x.First? == y.First?
    ensures ShownAll(a, x) == ShownAll(b, y) <==>
              Skeleton(a) == Skeleton(b) && (x.Final? ==> SameColours(a, x.colours, b, y.colours))
    decreases |a|
  {
    assert |a| == |ShownAll(a, x)| == |Skeleton(a)| && |b| == |ShownAll(b, y)| == |Skeleton(b)|;
    if a != [] && b != [] {
      WrittenParts(a, x);
      WrittenParts(b, y);
      ShownExact(a[1..], x, b[1..], y);
      ConsEqual(Shown(a[0], x), ShownAll(a[1..], x), Shown(b[0], y), ShownAll(b[1..], y));
      var p, q := if a[0].Hole? then Hole(0) else a[0], if b[0].Hole? then Hole(0) else b[0];
      ConsEqual(p, Skeleton(a[1..]), q, Skeleton(b[1..]));
      if x.Final? && p == q { ColoursCons(a, x.colours, b, y.colours); }
    }
  }

  lemma ConsEqual<T>(x: T, xs: seq<T>, y: T, ys: seq<T>)
    ensures [x] + xs == [y] + ys <==> x == y && xs == ys
  {
    assert ([x] + xs)[0] == x && ([x] + xs)[1..] == xs && ([y] + ys)[0] == y && ([y] + ys)[1..] == ys;
  }

  lemma ColoursCons(a: Member, c: seq<nat>, b: Member, d: seq<nat>)
    requires HolesIn(a, |c|) && HolesIn(b, |d|) && a != [] && b != [] && a[0].Hole? == b[0].Hole?
    ensures HolesIn(a[1..], |c|) && HolesIn(b[1..], |d|)
    ensures SameColours(a, c, b, d) <==>
              SameColours(a[1..], c, b[1..], d) && (a[0].Hole? ==> c[a[0].target] == d[b[0].target])
  {
    RefsInRange(a, |c|);
    RefsInRange(b, |d|);
    var r, s := RefsOf(a), RefsOf(b);
    if a[0].Hole? {
      assert r == [a[0].target] + RefsOf(a[1..]) && s == [b[0].target] + RefsOf(b[1..]);
      assert forall k :: 0 <= k < |RefsOf(a[1..])| ==> r[k + 1] == RefsOf(a[1..])[k];
      assert forall k :: 0 <= k < |RefsOf(b[1..])| ==> s[k + 1] == RefsOf(b[1..])[k];
      if SameColours(a, c, b, d) {
        assert c[r[0]] == d[s[0]];
        forall k | 0 <= k < |RefsOf(a[1..])| ensures c[RefsOf(a[1..])[k]] == d[RefsOf(b[1..])[k]] {
          assert c[r[k + 1]] == d[s[k + 1]];
        }
      }
    } else {
      assert r == RefsOf(a[1..]) && s == RefsOf(b[1..]);
    }
  }

  /** Two members of one layout with equal first-round bytes have the same
      fields and their references at the same places. */
  lemma SamePlaces(layout: Layout, a: Member, b: Member)
    requires Follows(layout, [], a, First) && Follows(layout, [], b, First)
    ensures BaseBytes(a) == BaseBytes(b) <==> Skeleton(a) == Skeleton(b)
  {
    hide Follows, MemberBytes, ShownAll, Skeleton;
    BytesExact(layout, a, First, b, First);
    ShownExact(a, First, b, First);
  }

  /** Final bytes of one layout are equal exactly when the fields are the same
      and the references have equal colours. */
  lemma EmitExact(layout: Layout, a: Member, c: seq<nat>, b: Member, d: seq<nat>)
    requires HolesIn(a, |c|) && HolesIn(b, |d|)
    requires Follows(layout, [], a, Final(c)) && Follows(layout, [], b, Final(d))
    ensures EmitBytes(a, c) == EmitBytes(b, d) <==> Skeleton(a) == Skeleton(b) && SameColours(a, c, b, d)
  {
    hide Follows, MemberBytes, ShownAll, Skeleton, SameColours;
    BytesExact(layout, a, Final(c), b, Final(d));
    ShownExact(a, Final(c), b, Final(d));
  }

  function Bases(ms: seq<Member>): (s: seq<Text>)
    ensures |s| == |ms| && forall i :: 0 <= i < |s| ==> s[i] == BaseBytes(ms[i])
  {
    seq(|ms|, i requires 0 <= i < |ms| => BaseBytes(ms[i]))
  }

  function RefLists(ms: seq<Member>): (s: seq<seq<nat>>)
    ensures |s| == |ms| && forall i :: 0 <= i < |s| ==> s[i] == RefsOf(ms[i])
  {
    seq(|ms|, i requires 0 <= i < |ms| => RefsOf(ms[i]))
  }

  /** Members of one layout whose holes stay inside the component. */
  ghost predicate Canonical(layout: Layout, ms: seq<Member>) {
    && |ms| <= U32_LIMIT
    && (forall i :: 0 <= i < |ms| ==> HolesIn(ms[i], |ms|))
    && (forall i :: 0 <= i < |ms| ==> Follows(layout, [], ms[i], First))
  }

  lemma {:induction false} RefsInRange(m: Member, n: nat)
    requires HolesIn(m, n)
    ensures forall k :: 0 <= k < |RefsOf(m)| ==> RefsOf(m)[k] < n
  {
    if m != [] { RefsInRange(m[1..], n); }
  }

  lemma CanonicalComponent(layout: Layout, ms: seq<Member>)
    requires Canonical(layout, ms)
    ensures Component(Bases(ms), RefLists(ms))
  {
    forall i | 0 <= i < |ms| ensures forall k :: 0 <= k < |RefLists(ms)[i]| ==> RefLists(ms)[i][k] < |ms| {
      RefsInRange(ms[i], |ms|);
    }
  }

  /** Equal skeletons with equally coloured references emit equal bytes. */
  lemma EmitEqual(m: Member, c: seq<nat>, m': Member, c': seq<nat>)
    requires HolesIn(m, |c|) && HolesIn(m', |c'|) && Skeleton(m) == Skeleton(m') && SameColours(m, c, m', c')
    ensures EmitBytes(m, c) == EmitBytes(m', c')
  {
    hide MemberBytes, ShownAll, Skeleton, SameColours;
    ShownExact(m, Final(c), m', Final(c'));
    ShownBytes(m, Final(c), m', Final(c'));
  }

  /** The refinement answer for the members `ms`. */
  ghost predicate RefinedTo(layout: Layout, ms: seq<Member>, remaining: nat, r: Refined)
    requires Canonical(layout, ms)
  {
    CanonicalComponent(layout, ms);
    RefineSpec(Bases(ms), RefLists(ms), remaining, Ok(r))
  }

  lemma RefinedViews(base: seq<Text>, refs: seq<seq<nat>>, remaining: nat, r: Refined, i: nat, j: nat)
    requires Component(base, refs) && RefineSpec(base, refs, remaining, Ok(r)) && i < |base| && j < |base|
    ensures |r.colours| == |base|
    ensures r.colours[i] == r.colours[j] ==> base[i] == base[j] && |refs[i]| == |refs[j]|
    ensures r.colours[i] == r.colours[j] ==>
              forall k :: 0 <= k < |refs[i]| ==> r.colours[refs[i][k]] == r.colours[refs[j][k]]
  {
    if |base| > 1 {
      hide Iter, ComponentRounds, ModuleRounds, Work, PerRound;
      if r.colours[i] == r.colours[j] {
        IterRefinesBase(base, refs, r.rounds, i, j);
        SettledIsStable(base, refs, r.rounds, i, j);
      }
    }
  }

  /** Two members of one colour emit equal bytes. */
  lemma SameColourSameBytes(layout: Layout, ms: seq<Member>, remaining: nat, r: Refined, i: nat, j: nat)
    requires Canonical(layout, ms) && RefinedTo(layout, ms, remaining, r) && i < |ms| && j < |ms|
    ensures |r.colours| == |ms|
    ensures r.colours[i] == r.colours[j] ==> EmitBytes(ms[i], r.colours) == EmitBytes(ms[j], r.colours)
  {
    CanonicalComponent(layout, ms);
    RefinedViews(Bases(ms), RefLists(ms), remaining, r, i, j);
    if r.colours[i] == r.colours[j] {
      RefsInRange(ms[i], |ms|);
      RefsInRange(ms[j], |ms|);
      assert RefLists(ms)[i] == RefsOf(ms[i]) && RefLists(ms)[j] == RefsOf(ms[j]);
      assert Bases(ms)[i] == Bases(ms)[j];
      SamePlaces(layout, ms[i], ms[j]);
      EmitEqual(ms[i], r.colours, ms[j], r.colours);
    }
  }

  // ---------------------------------------------------------- emission

  /** One length-prefixed member. */
  function FramedBytes(bytes: Text): Text {
    Le(|bytes|, 8) + bytes
  }

  /** The framed members in the given order. */
  function Framed(ms: seq<Member>, colours: seq<nat>, order: seq<nat>): Text
    requires forall i :: 0 <= i < |ms| ==> HolesIn(ms[i], |colours|)
    requires forall k :: 0 <= k < |order| ==> order[k] < |ms|
  {
    if order == [] then []
    else
      var last := |order| - 1;
      Framed(ms, colours, order[..last]) + FramedBytes(EmitBytes(ms[order[last]], colours))
  }

  /** An order of all members by ascending colour. */
  ghost predicate ColourOrder(colours: seq<nat>, order: seq<nat>) {
    && IsPermutation(order, |colours|)
    && (forall k :: 0 <= k < |order| ==> order[k] < |colours|)
    && forall k, l :: 0 <= k < l < |order| ==> colours[order[k]] <= colours[order[l]]
  }

  lemma InsertKeepsColourOrder(colours: seq<nat>, order: seq<nat>, at: nat, i: nat)
    requires multiset(order) == multiset(Iota(i)) && i < |colours| && at <= |order|
    requires forall k :: 0 <= k < |order| ==> order[k] < |colours|
    requires forall k, l :: 0 <= k < l < |order| ==> colours[order[k]] <= colours[order[l]]
    requires forall k :: 0 <= k < at ==> colours[order[k]] <= colours[i]
    requires at < |order| ==> colours[i] < colours[order[at]]
    ensures multiset(order[..at] + [i] + order[at..]) == multiset(Iota(i + 1))
    ensures var o := order[..at] + [i] + order[at..];
            forall k, l :: 0 <= k < l < |o| ==> o[k] < |colours| && o[l] < |colours| && colours[o[k]] <= colours[o[l]]
  {
    hide Iota;
    IotaSnoc(i);
    assert order == order[..at] + order[at..];
    var o := order[..at] + [i] + order[at..];
    forall k, l | 0 <= k < l < |o| ensures o[k] < |colours| && o[l] < |colours| && colours[o[k]] <= colours[o[l]] {
      Inserted(order, at, i, k);
      Inserted(order, at, i, l);
    }
  }

  lemma IotaSnoc(n: nat)
    ensures Iota(n + 1) == Iota(n) + [n]
  {
  }

  lemma Inserted(order: seq<nat>, at: nat, i: nat, k: nat)
    requires at <= |order| && k <= |order|
    ensures (order[..at] + [i] + order[at..])[k] == if k < at then order[k] else if k == at then i else order[k - 1]
  {
  }

  /** The stable sort by colour. */
  method SortByColour(colours: seq<nat>) returns (order: seq<nat>)
    ensures ColourOrder(colours, order)
  {
    order := [];
    for i := 0 to |colours|
      invariant multiset(order) == multiset(Iota(i))
      invariant forall k :: 0 <= k < |order| ==> order[k] < |colours|
      invariant forall k, l :: 0 <= k < l < |order| ==> colours[order[k]] <= colours[order[l]]
    {
      var at := 0;
      while at < |order| && colours[order[at]] <= colours[i]
        invariant at <= |order|
        invariant forall k :: 0 <= k < at ==> colours[order[k]] <= colours[i]
      {
        at := at + 1;
      }
      InsertKeepsColourOrder(colours, order, at, i);
      order := order[..at] + [i] + order[at..];
    }
  }

  /** The whole component encoding: header, member count, framed members. */
  ghost predicate IsEncoding(header: Text, ms: seq<Member>, colours: seq<nat>, bytes: Text) {
    && |colours| == |ms|
    && (forall i :: 0 <= i < |ms| ==> HolesIn(ms[i], |colours|))
    && exists order :: ColourOrder(colours, order) && bytes == header + Le(|order|, 4) + Framed(ms, colours, order)
  }

  method EmitComponent(header: Text, ms: seq<Member>, colours: seq<nat>) returns (bytes: Text)
    requires |colours| == |ms| && forall i :: 0 <= i < |ms| ==> HolesIn(ms[i], |colours|)
    ensures IsEncoding(header, ms, colours, bytes)
  {
    hide MemberBytes, Le;
    var order := SortByColour(colours);
    bytes := header + Le(|order|, 4);
    ghost var start := bytes;
    for k := 0 to |order|
      invariant bytes == start + Framed(ms, colours, order[..k])
    {
      bytes := bytes + FramedBytes(EmitBytes(ms[order[k]], colours));
      assert order[..k + 1][..k] == order[..k];
    }
    assert order[..|order|] == order;
  }

  /** The same component listed in another order. */
  ghost predicate Reordered(ms: seq<Member>, ms': seq<Member>, p: seq<nat>) {
    && |ms'| == |ms| == |p| && IsPermutation(p, |ms|)
    && (forall i :: 0 <= i < |p| ==> p[i] < |ms| && Skeleton(ms'[i]) == Skeleton(ms[p[i]]))
    && (forall i :: 0 <= i < |p| ==> |RefsOf(ms'[i])| == |RefsOf(ms[p[i]])|)
    && (forall i, k :: 0 <= i < |p| && 0 <= k < |RefsOf(ms'[i])| ==>
          RefsOf(ms'[i])[k] < |p| && p[RefsOf(ms'[i])[k]] == RefsOf(ms[p[i]])[k])
  }

  lemma SkeletonBase(m: Member, m': Member)
    requires Skeleton(m) == Skeleton(m')
    ensures BaseBytes(m) == BaseBytes(m')
  {
    hide MemberBytes, ShownAll, Skeleton;
    ShownExact(m, First, m', First);
    ShownBytes(m, First, m', First);
  }

  lemma ReorderedRelabelled(layout: Layout, ms: seq<Member>, ms': seq<Member>, p: seq<nat>)
    requires Canonical(layout, ms) && Canonical(layout, ms') && Reordered(ms, ms', p)
    ensures Component(Bases(ms), RefLists(ms)) && Component(Bases(ms'), RefLists(ms'))
    ensures Relabelled(Bases(ms), RefLists(ms), Bases(ms'), RefLists(ms'), p)
  {
    CanonicalComponent(layout, ms);
    CanonicalComponent(layout, ms');
    forall i | 0 <= i < |p| ensures Bases(ms')[i] == Bases(ms)[p[i]] { SkeletonBase(ms'[i], ms[p[i]]); }
  }

  lemma ReorderedEmit(layout: Layout, ms: seq<Member>, c: seq<nat>, ms': seq<Member>, c': seq<nat>, p: seq<nat>, i: nat)
    requires Canonical(layout, ms) && Canonical(layout, ms') && Reordered(ms, ms', p) && i < |p|
    requires |c| == |ms| && |c'| == |ms'| && forall j :: 0 <= j < |p| ==> c'[j] == c[p[j]]
    ensures EmitBytes(ms'[i], c') == EmitBytes(ms[p[i]], c)
  {
    RefsInRange(ms'[i], |ms'|);
    RefsInRange(ms[p[i]], |ms|);
    EmitEqual(ms'[i], c', ms[p[i]], c);
  }

  /** Sorted by colour, both listings show the same colour at each place. */
  lemma SameColourAt(c: seq<nat>, order: seq<nat>, c': seq<nat>, order': seq<nat>, p: seq<nat>)
    requires |c| == |c'| == |p| && IsPermutation(p, |c|)
    requires forall j :: 0 <= j < |p| ==> p[j] < |c| && c'[j] == c[p[j]]
    requires ColourOrder(c, order) && ColourOrder(c', order')
    ensures |order| == |order'| == |c|
    ensures forall k :: 0 <= k < |order| ==> c[order[k]] == c'[order'[k]]
  {
    PickPermutation(c, order);
    PickPermutation(c', order');
    PickPermutation(c, p);
    assert Pick(c, p) == c';
    SortedUnique(Pick(c, order), Pick(c', order'));
    assert forall k :: 0 <= k < |order| ==> c[order[k]] == Pick(c, order)[k] == Pick(c', order')[k] == c'[order'[k]];
  }

  lemma {:induction false} FramedEqual(ms: seq<Member>, c: seq<nat>, order: seq<nat>, ms': seq<Member>, c': seq<nat>,
                                       order': seq<nat>)
    requires forall i :: 0 <= i < |ms| ==> HolesIn(ms[i], |c|)
    requires forall i :: 0 <= i < |ms'| ==> HolesIn(ms'[i], |c'|)
    requires |order| == |order'|
    requires forall k :: 0 <= k < |order| ==> order[k] < |ms| && order'[k] < |ms'|
    requires forall k :: 0 <= k < |order| ==> EmitBytes(ms[order[k]], c) == EmitBytes(ms'[order'[k]], c')
    ensures Framed(ms, c, order) == Framed(ms', c', order')
    decreases |order|
  {
    if order != [] {
      hide EmitBytes;
      var last := |order| - 1;
      FramedEqual(ms, c, order[..last], ms', c', order'[..last]);
    }
  }

  /** However the members of one component are listed, and however ties of
      one colour are ordered, the component encodes to the same bytes. */
  lemma EncodingIgnoresOrder(layout: Layout, header: Text, ms: seq<Member>, ms': seq<Member>, p: seq<nat>,
                             remaining: nat, r: Refined, r': Refined, bytes: Text, bytes': Text)
    requires Canonical(layout, ms) && Canonical(layout, ms') && Reordered(ms, ms', p)
    requires RefinedTo(layout, ms, remaining, r) && RefinedTo(layout, ms', remaining, r')
    requires IsEncoding(header, ms, r.colours, bytes) && IsEncoding(header, ms', r'.colours, bytes')
    ensures bytes == bytes'
  {
    var c, c' := r.colours, r'.colours;
    ReorderedRelabelled(layout, ms, ms', p);
    assert SameUpTo(r, r', p) by {
      RefineIgnoresOrder(Bases(ms), RefLists(ms), Bases(ms'), RefLists(ms'), p, remaining, Ok(r), Ok(r'));
    }
    var order :| ColourOrder(c, order) && bytes == header + Le(|order|, 4) + Framed(ms, c, order);
    var order' :| ColourOrder(c', order') && bytes' == header + Le(|order'|, 4) + Framed(ms', c', order');
    EmissionsAgree(layout, ms, ms', p, remaining, r, r', order, order');
  }

  lemma EmissionsAgree(layout: Layout, ms: seq<Member>, ms': seq<Member>, p: seq<nat>, remaining: nat,
                       r: Refined, r': Refined, order: seq<nat>, order': seq<nat>)
    requires Canonical(layout, ms) && Canonical(layout, ms') && Reordered(ms, ms', p)
    requires RefinedTo(layout, ms, remaining, r) && SameUpTo(r, r', p) && |r.colours| == |r'.colours| == |ms|
    requires ColourOrder(r.colours, order) && ColourOrder(r'.colours, order')
    ensures |order| == |order'| && Framed(ms, r.colours, order) == Framed(ms', r'.colours, order')
  {
    hide RefinedTo;
    var c, c' := r.colours, r'.colours;
    SameColourAt(c, order, c', order', p);
    forall k | 0 <= k < |order| ensures EmitBytes(ms[order[k]], c) == EmitBytes(ms'[order'[k]], c') {
      ReorderedEmit(layout, ms, c, ms', c', p, order'[k]);
      SameColourSameBytes(layout, ms, remaining, r, order[k], p[order'[k]]);
    }
    FramedEqual(ms, c, order, ms', c', order');
  }
}
