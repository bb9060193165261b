/** Effect groups of an ABI bundle: the cycle check, the operation closure
    and the row-name order. */
module Bundle {
  import opened Common

  type Name = string

  datatype Group = Group(name: Name, members: seq<Name>)

  datatype Operation = Operation(name: Name, group: Name)

  ghost predicate SlotsValid(groups: seq<Group>, slots: map<Name, nat>) {
    forall n :: n in slots ==> slots[n] < |groups|
  }

  // ----------------------------------------------------------- the graph

  /** Group `a` lists group `b` as a direct member. */
  ghost predicate Edge(groups: seq<Group>, slots: map<Name, nat>, a: nat, b: nat) {
    && a < |groups|
    && exists k :: 0 <= k < |groups[a].members| &&
         groups[a].members[k] in slots && slots[groups[a].members[k]] == b
  }

  /** `path` runs along member edges. */
  ghost predicate IsPath(groups: seq<Group>, slots: map<Name, nat>, path: seq<nat>) {
    && path != []
    && forall i :: 0 <= i < |path| - 1 ==> Edge(groups, slots, path[i], path[i + 1])
  }

  ghost predicate Reaches(groups: seq<Group>, slots: map<Name, nat>, a: nat, b: nat) {
    exists path :: IsPath(groups, slots, path) && path[0] == a && path[|path| - 1] == b
  }

  /** No group reaches itself along one or more edges. */
  ghost predicate Acyclic(groups: seq<Group>, slots: map<Name, nat>) {
    forall path :: IsPath(groups, slots, path) && |path| > 1 ==> path[0] != path[|path| - 1]
  }

  lemma PathSnoc(groups: seq<Group>, slots: map<Name, nat>, path: seq<nat>, b: nat)
    requires IsPath(groups, slots, path) && Edge(groups, slots, path[|path| - 1], b)
    ensures IsPath(groups, slots, path + [b])
  {
    var p := path + [b];
    forall i | 0 <= i < |p| - 1 ensures Edge(groups, slots, p[i], p[i + 1]) {
      if i < |path| - 1 { assert p[i] == path[i] && p[i + 1] == path[i + 1]; }
    }
  }

  lemma PathCons(groups: seq<Group>, slots: map<Name, nat>, a: nat, path: seq<nat>)
    requires IsPath(groups, slots, path) && Edge(groups, slots, a, path[0])
    ensures IsPath(groups, slots, [a] + path)
  {
    var p := [a] + path;
    forall i | 0 <= i < |p| - 1 ensures Edge(groups, slots, p[i], p[i + 1]) {
      if i > 0 { assert p[i] == path[i - 1] && p[i + 1] == path[i]; }
    }
  }

  lemma PathSuffix(groups: seq<Group>, slots: map<Name, nat>, path: seq<nat>, k: nat)
    requires IsPath(groups, slots, path) && k < |path|
    ensures IsPath(groups, slots, path[k..])
  {
    var p := path[k..];
    forall i | 0 <= i < |p| - 1 ensures Edge(groups, slots, p[i], p[i + 1]) {
      assert p[i] == path[k + i] && p[i + 1] == path[k + i + 1];
    }
  }

  // ------------------------------------------------------ the cycle check

  /** The colours of the check: 0 unseen, 1 on the path, 2 finished. */
  ghost predicate Colouring(groups: seq<Group>, state: seq<nat>) {
    |state| == |groups| && forall i :: 0 <= i < |state| ==> state[i] <= 2
  }

  ghost function Done(state: seq<nat>): set<nat> {
    set i | 0 <= i < |state| && state[i] == 2
  }

  ghost function Unseen(state: seq<nat>): set<nat> {
    set i | 0 <= i < |state| && state[i] == 0
  }

  /** No path leaves the finished groups, and none of them closes a cycle. */
  ghost predicate Safe(groups: seq<Group>, slots: map<Name, nat>, done: set<nat>) {
    forall path :: IsPath(groups, slots, path) && path[0] in done ==>
      (forall i :: 0 <= i < |path| ==> path[i] in done) && (|path| > 1 ==> path[0] != path[|path| - 1])
  }

  /** The groups of colour 1 are those of the active path. */
  ghost predicate OnPath(groups: seq<Group>, slots: map<Name, nat>, state: seq<nat>, path: seq<nat>) {
    && (forall i :: 0 <= i < |state| ==> (state[i] == 1 <==> i in path))
    && (path != [] ==> IsPath(groups, slots, path))
  }

  /** The same groups are on the path and finished groups stay finished. */
  ghost predicate Kept(before: seq<nat>, after: seq<nat>) {
    && |before| == |after|
    && (forall i :: 0 <= i < |before| ==> (before[i] == 1 <==> after[i] == 1))
    && (forall i :: 0 <= i < |before| && before[i] == 2 ==> after[i] == 2)
  }

  lemma KeptOnPath(groups: seq<Group>, slots: map<Name, nat>, before: seq<nat>, after: seq<nat>, path: seq<nat>)
    requires OnPath(groups, slots, before, path) && Kept(before, after)
    ensures OnPath(groups, slots, after, path)
  {
  }

  lemma EnterPath(groups: seq<Group>, slots: map<Name, nat>, state: seq<nat>, path: seq<nat>, g: nat)
    requires Colouring(groups, state) && OnPath(groups, slots, state, path) && g < |groups| && state[g] == 0
    requires path != [] ==> Edge(groups, slots, path[|path| - 1], g)
    ensures OnPath(groups, slots, state[g := 1], path + [g])
    ensures Done(state[g := 1]) == Done(state) && Unseen(state[g := 1]) < Unseen(state)
  {
    if path != [] { PathSnoc(groups, slots, path, g); }
    assert g in Unseen(state);
  }

  lemma KeptUnseen(groups: seq<Group>, before: seq<nat>, after: seq<nat>)
    requires Colouring(groups, before) && Colouring(groups, after) && Kept(before, after)
    ensures Unseen(after) <= Unseen(before)
  {
  }

  lemma CycleFound(groups: seq<Group>, slots: map<Name, nat>, path: seq<nat>, g: nat)
    requires path != [] && IsPath(groups, slots, path) && g in path && Edge(groups, slots, path[|path| - 1], g)
    ensures !Acyclic(groups, slots)
  {
    var k :| 0 <= k < |path| && path[k] == g;
    PathSuffix(groups, slots, path, k);
    PathSnoc(groups, slots, path[k..], g);
    var cycle := path[k..] + [g];
    assert IsPath(groups, slots, cycle) && |cycle| > 1 && cycle[0] == cycle[|cycle| - 1];
  }

  ghost predicate MembersDone(groups: seq<Group>, slots: map<Name, nat>, g: nat, count: nat, done: set<nat>)
    requires g < |groups| && count <= |groups[g].members|
  {
    forall l :: 0 <= l < count && groups[g].members[l] in slots ==> slots[groups[g].members[l]] in done
  }

  /** Finishing a group whose members are finished keeps the set safe. */
  lemma FinishSafe(groups: seq<Group>, slots: map<Name, nat>, done: set<nat>, g: nat)
    requires Safe(groups, slots, done) && g < |groups| && g !in done
    requires MembersDone(groups, slots, g, |groups[g].members|, done)
    ensures Safe(groups, slots, done + {g})
  {
    forall path | IsPath(groups, slots, path) && path[0] in done + {g}
      ensures (forall i :: 0 <= i < |path| ==> path[i] in done + {g}) && (|path| > 1 ==> path[0] != path[|path| - 1])
    {
      if path[0] == g && |path| > 1 {
        assert Edge(groups, slots, path[0], path[1]);
        PathSuffix(groups, slots, path, 1);
        var tail := path[1..];
        assert tail[0] in done;
        assert forall i :: 0 <= i < |tail| ==> tail[i] in done;
        assert forall i :: 1 <= i < |path| ==> path[i] == tail[i - 1];
      }
    }
  }

  lemma LeavePath(groups: seq<Group>, slots: map<Name, nat>, start: seq<nat>, state: seq<nat>, g: nat)
    requires Colouring(groups, start) && Colouring(groups, state) && g < |groups| && start[g] == 0
    requires Kept(start[g := 1], state)
    ensures Kept(start, state[g := 2]) && Done(state[g := 2]) == Done(state) + {g} && g !in Done(state)
  {
  }

  /** Depth-first visit of one group with the shared three-state table. */
  method Visit(g: nat, groups: seq<Group>, slots: map<Name, nat>, state: array<nat>, ghost path: seq<nat>)
    returns (ok: bool)
    requires SlotsValid(groups, slots) && g < |groups| && Colouring(groups, state[..])
    requires Safe(groups, slots, Done(state[..])) && OnPath(groups, slots, state[..], path)
    requires path != [] ==> Edge(groups, slots, path[|path| - 1], g)
    modifies state
    ensures !ok ==> !Acyclic(groups, slots)
    ensures ok ==> Colouring(groups, state[..]) && Kept(old(state[..]), state[..]) && g in Done(state[..])
    ensures ok ==> Safe(groups, slots, Done(state[..]))
    decreases Unseen(state[..]), 0
  {
    ghost var start := state[..];
    if state[g] == 1 {
      assert path != [] by { assert state[..][g] == 1; }
      CycleFound(groups, slots, path, g);
      return false;
    }
    if state[g] == 2 {
      return true;
    }
    EnterPath(groups, slots, start, path, g);
    state[g] := 1;
    assert state[..] == start[g := 1];
    ok := VisitMembers(g, groups, slots, state, path + [g]);
    if !ok { return false; }
    ghost var now := state[..];
    FinishSafe(groups, slots, Done(now), g) by { LeavePath(groups, slots, start, now, g); }
    state[g] := 2;
    LeavePath(groups, slots, start, now, g);
    assert state[..] == now[g := 2];
  }

  method VisitMembers(g: nat, groups: seq<Group>, slots: map<Name, nat>, state: array<nat>, ghost path: seq<nat>)
    returns (ok: bool)
    requires SlotsValid(groups, slots) && g < |groups| && Colouring(groups, state[..])
    requires Safe(groups, slots, Done(state[..])) && OnPath(groups, slots, state[..], path)
    requires path != [] && path[|path| - 1] == g
    modifies state
    ensures !ok ==> !Acyclic(groups, slots)
    ensures ok ==> Colouring(groups, state[..]) && Kept(old(state[..]), state[..])
    ensures ok ==> Safe(groups, slots, Done(state[..]))
    ensures ok ==> MembersDone(groups, slots, g, |groups[g].members|, Done(state[..]))
    decreases Unseen(state[..]), 1
  {
    hide Safe, OnPath;
    ghost var start := state[..];
    for k := 0 to |groups[g].members|
      invariant Colouring(groups, state[..]) && Kept(start, state[..])
      invariant Safe(groups, slots, Done(state[..]))
      invariant MembersDone(groups, slots, g, k, Done(state[..]))
    {
      var member := groups[g].members[k];
      if member in slots {
        assert Edge(groups, slots, g, slots[member]);
        KeptUnseen(groups, start, state[..]);
        KeptOnPath(groups, slots, start, state[..], path);
        var inner := Visit(slots[member], groups, slots, state, path);
        if !inner { return false; }
      }
    }
    ok := true;
  }

  ghost predicate DistinctMembers(group: Group) {
    forall i, j :: 0 <= i < j < |group.members| ==> group.members[i] != group.members[j]
  }

  ghost predicate KnownMembers(group: Group, slots: map<Name, nat>, operationSlots: map<Name, nat>) {
    forall i :: 0 <= i < |group.members| ==> group.members[i] in slots || group.members[i] in operationSlots
  }

  method CheckDirect(group: Group, slots: map<Name, nat>, operationSlots: map<Name, nat>) returns (ok: bool)
    ensures ok <==> DistinctMembers(group) && KnownMembers(group, slots, operationSlots)
  {
    var direct: set<Name> := {};
    for k := 0 to |group.members|
      invariant forall n :: n in direct <==> n in group.members[..k]
      invariant forall i, j :: 0 <= i < j < k ==> group.members[i] != group.members[j]
      invariant forall i :: 0 <= i < k ==> group.members[i] in slots || group.members[i] in operationSlots
    {
      var member := group.members[k];
      if member in direct {
        var i :| 0 <= i < k && group.members[i] == member;
        return false;
      }
      assert forall i :: 0 <= i < k ==> group.members[i] != member by {
        forall i | 0 <= i < k ensures group.members[i] != member { assert group.members[..k][i] == group.members[i]; }
      }
      direct := direct + {member};
      if member !in slots && member !in operationSlots { return false; }
      assert group.members[..k + 1] == group.members[..k] + [member];
    }
    ok := true;
  }

  lemma EmptySafe(groups: seq<Group>, slots: map<Name, nat>)
    ensures Safe(groups, slots, {})
  {
  }

  lemma AllDoneAcyclic(groups: seq<Group>, slots: map<Name, nat>, done: set<nat>)
    requires SlotsValid(groups, slots) && Safe(groups, slots, done)
    requires forall i :: 0 <= i < |groups| ==> i in done
    ensures Acyclic(groups, slots)
  {
    forall path | IsPath(groups, slots, path) && |path| > 1 ensures path[0] != path[|path| - 1] {
      assert Edge(groups, slots, path[0], path[1]);
      assert path[0] in done;
    }
  }

  /** Validation accepts exactly the groups with distinct, known members
      whose member graph has no cycle. */
  method ValidateGroupMembers(groups: seq<Group>, slots: map<Name, nat>, operationSlots: map<Name, nat>)
    returns (ok: bool)
    requires SlotsValid(groups, slots)
    ensures ok <==>
            && (forall i :: 0 <= i < |groups| ==>
                  DistinctMembers(groups[i]) && KnownMembers(groups[i], slots, operationSlots))
            && Acyclic(groups, slots)
  {
    for i := 0 to |groups|
      invariant forall j :: 0 <= j < i ==> DistinctMembers(groups[j]) && KnownMembers(groups[j], slots, operationSlots)
    {
      var direct := CheckDirect(groups[i], slots, operationSlots);
      if !direct { return false; }
    }
    ok := CheckCycles(groups, slots);
  }

  method CheckCycles(groups: seq<Group>, slots: map<Name, nat>) returns (ok: bool)
    requires SlotsValid(groups, slots)
    ensures ok <==> Acyclic(groups, slots)
  {
    hide Safe, Acyclic;
    var state := new nat[|groups|](_ => 0);
    EmptySafe(groups, slots);
    assert Done(state[..]) == {};
    for g := 0 to |groups|
      invariant Colouring(groups, state[..]) && Safe(groups, slots, Done(state[..]))
      invariant OnPath(groups, slots, state[..], [])
      invariant forall i :: 0 <= i < g ==> state[..][i] == 2
    {
      ghost var before := state[..];
      var inner := Visit(g, groups, slots, state, []);
      if !inner { return false; }
      KeptOnPath(groups, slots, before, state[..], []);
      assert state[..][g] == 2;
    }
    AllDoneAcyclic(groups, slots, Done(state[..]));
    ok := true;
  }

  // ----------------------------------------------------- operation closure

  /** Group `g` itself owns the operation or lists its name. */
  predicate Direct(groups: seq<Group>, g: nat, op: Operation)
    requires g < |groups|
  {
    op.group == groups[g].name || op.name in groups[g].members
  }

  /** Some group reachable from `g` owns the operation or lists its name. */
  ghost predicate Includes(groups: seq<Group>, slots: map<Name, nat>, g: nat, op: Operation) {
    exists h: nat :: h < |groups| && Reaches(groups, slots, g, h) &&
      (op.group == groups[h].name || op.name in groups[h].members)
  }

  ghost function SeenSet(seen: seq<bool>): set<nat> {
    set i | 0 <= i < |seen| && seen[i]
  }

  ghost function NotSeen(seen: seq<bool>): set<nat> {
    set i | 0 <= i < |seen| && !seen[i]
  }

  /** Every group marked since `before` has neither the operation nor a
      member left unmarked: the marks form a dead end. */
  ghost predicate DeadEnd(groups: seq<Group>, slots: map<Name, nat>, op: Operation, before: set<nat>, after: set<nat>) {
    && before <= after
    && (forall g :: g in after && g !in before ==> g < |groups| && !Direct(groups, g, op))
    && (forall g, h :: g in after && g !in before && Edge(groups, slots, g, h) ==> h in after)
  }

  lemma IncludesDirect(groups: seq<Group>, slots: map<Name, nat>, g: nat, op: Operation)
    requires g < |groups| && Direct(groups, g, op)
    ensures Includes(groups, slots, g, op)
  {
    var path := [g];
    assert IsPath(groups, slots, path) && path[0] == g && path[|path| - 1] == g;
    assert Reaches(groups, slots, g, g);
  }

  lemma IncludesMember(groups: seq<Group>, slots: map<Name, nat>, g: nat, child: nat, op: Operation)
    requires Edge(groups, slots, g, child) && Includes(groups, slots, child, op)
    ensures Includes(groups, slots, g, op)
  {
    var h: nat :| h < |groups| && Reaches(groups, slots, child, h) &&
      (op.group == groups[h].name || op.name in groups[h].members);
    var path :| IsPath(groups, slots, path) && path[0] == child && path[|path| - 1] == h;
    PathCons(groups, slots, g, path);
    var longer := [g] + path;
    assert IsPath(groups, slots, longer) && longer[0] == g && longer[|longer| - 1] == h;
    assert Reaches(groups, slots, g, h);
  }

  lemma {:induction false} DeadEndPath(groups: seq<Group>, slots: map<Name, nat>, op: Operation, after: set<nat>,
                                       path: seq<nat>, k: nat)
    requires DeadEnd(groups, slots, op, {}, after) && IsPath(groups, slots, path) && path[0] in after && k < |path|
    ensures path[k] in after
  {
    if k > 0 {
      DeadEndPath(groups, slots, op, after, path, k - 1);
      assert Edge(groups, slots, path[k - 1], path[k - 1 + 1]);
    }
  }

  lemma DeadEndExcludes(groups: seq<Group>, slots: map<Name, nat>, op: Operation, after: set<nat>, g: nat)
    requires DeadEnd(groups, slots, op, {}, after) && g in after
    ensures !Includes(groups, slots, g, op)
  {
    if Includes(groups, slots, g, op) {
      var h: nat :| h < |groups| && Reaches(groups, slots, g, h) &&
        (op.group == groups[h].name || op.name in groups[h].members);
      var path :| IsPath(groups, slots, path) && path[0] == g && path[|path| - 1] == h;
      DeadEndPath(groups, slots, op, after, path, |path| - 1);
    }
  }

  lemma DeadEndJoin(groups: seq<Group>, slots: map<Name, nat>, op: Operation, a: set<nat>, b: set<nat>, c: set<nat>)
    requires DeadEnd(groups, slots, op, a, b) && DeadEnd(groups, slots, op, b, c)
    ensures DeadEnd(groups, slots, op, a, c)
  {
  }

  /** The members of `g` before `k` are not the operation, and those that
      are groups are marked. */
  ghost predicate MembersMarked(groups: seq<Group>, slots: map<Name, nat>, g: nat, k: nat, op: Operation,
                                seen: set<nat>)
    requires g < |groups| && k <= |groups[g].members|
  {
    forall l :: 0 <= l < k ==>
      groups[g].members[l] != op.name && (groups[g].members[l] in slots ==> slots[groups[g].members[l]] in seen)
  }

  lemma CloseGroup(groups: seq<Group>, slots: map<Name, nat>, op: Operation, start: set<nat>, seen: set<nat>, g: nat)
    requires g < |groups| && g !in start && op.group != groups[g].name
    requires DeadEnd(groups, slots, op, start + {g}, seen)
    requires MembersMarked(groups, slots, g, |groups[g].members|, op, seen)
    ensures DeadEnd(groups, slots, op, start, seen) && g in seen
  {
  }

  /** Search for one operation with a shared mark array. */
  method Contains(g: nat, op: Operation, groups: seq<Group>, slots: map<Name, nat>, seen: array<bool>)
    returns (b: bool)
    requires SlotsValid(groups, slots) && g < |groups| == seen.Length
    modifies seen
    ensures b ==> Includes(groups, slots, g, op)
    ensures !b ==> DeadEnd(groups, slots, op, old(SeenSet(seen[..])), SeenSet(seen[..])) && g in SeenSet(seen[..])
    decreases NotSeen(seen[..]), 0
  {
    hide Includes;
    if seen[g] { return false; }
    ghost var start := seen[..];
    seen[g] := true;
    assert SeenSet(seen[..]) == SeenSet(start) + {g};
    assert g in NotSeen(start) && NotSeen(seen[..]) < NotSeen(start);
    if op.group == groups[g].name {
      IncludesDirect(groups, slots, g, op);
      return true;
    }
    b := ContainsMembers(g, op, groups, slots, seen);
    if !b { CloseGroup(groups, slots, op, SeenSet(start), SeenSet(seen[..]), g); }
  }

  method ContainsMembers(g: nat, op: Operation, groups: seq<Group>, slots: map<Name, nat>, seen: array<bool>)
    returns (b: bool)
    requires SlotsValid(groups, slots) && g < |groups| == seen.Length
    modifies seen
    ensures b ==> Includes(groups, slots, g, op)
    ensures !b ==> DeadEnd(groups, slots, op, old(SeenSet(seen[..])), SeenSet(seen[..]))
    ensures !b ==> MembersMarked(groups, slots, g, |groups[g].members|, op, SeenSet(seen[..]))
    decreases NotSeen(seen[..]), 1
  {
    hide Includes;
    ghost var start := seen[..];
    for k := 0 to |groups[g].members|
      invariant DeadEnd(groups, slots, op, SeenSet(start), SeenSet(seen[..]))
      invariant MembersMarked(groups, slots, g, k, op, SeenSet(seen[..]))
    {
      var member := groups[g].members[k];
      if member == op.name {
        IncludesDirect(groups, slots, g, op);
        return true;
      }
      if member in slots {
        ghost var before := seen[..];
        MarksShrink(start, before);
        var inner := Contains(slots[member], op, groups, slots, seen);
        if inner {
          assert Edge(groups, slots, g, slots[member]);
          IncludesMember(groups, slots, g, slots[member], op);
          return true;
        }
        DeadEndJoin(groups, slots, op, SeenSet(start), SeenSet(before), SeenSet(seen[..]));
      }
    }
    b := false;
  }

  lemma MarksShrink(a: seq<bool>, b: seq<bool>)
    requires |a| == |b| && SeenSet(a) <= SeenSet(b)
    ensures NotSeen(b) <= NotSeen(a)
  {
    forall i | i in NotSeen(b) ensures i in NotSeen(a) {
      if a[i] { assert i in SeenSet(a); }
    }
  }

  /** The closure rows: bit `o` of row `g` says whether some group reachable
      from `g` owns operation `o` or lists its name. */
  ghost predicate BitsExact(groups: seq<Group>, slots: map<Name, nat>, ops: seq<Operation>, bits: seq<seq<bool>>) {
    && |bits| == |groups|
    && forall g :: 0 <= g < |bits| ==> |bits[g]| == |ops| && RowExact(groups, slots, ops, g, bits[g])
  }

  ghost predicate RowExact(groups: seq<Group>, slots: map<Name, nat>, ops: seq<Operation>, g: nat, row: seq<bool>) {
    forall o :: 0 <= o < |row| && o < |ops| ==> (row[o] <==> Includes(groups, slots, g, ops[o]))
  }

  method BuildRow(groups: seq<Group>, slots: map<Name, nat>, ops: seq<Operation>, g: nat) returns (row: seq<bool>)
    requires SlotsValid(groups, slots) && g < |groups|
    ensures |row| == |ops| && RowExact(groups, slots, ops, g, row)
  {
    hide Includes;
    row := [];
    for o := 0 to |ops|
      invariant |row| == o && RowExact(groups, slots, ops, g, row)
    {
      var seen := new bool[|groups|](_ => false);
      assert SeenSet(seen[..]) == {};
      var bit := Contains(g, ops[o], groups, slots, seen);
      if !bit { DeadEndExcludes(groups, slots, ops[o], SeenSet(seen[..]), g); }
      row := row + [bit];
    }
  }

  method BuildGroupBits(groups: seq<Group>, slots: map<Name, nat>, ops: seq<Operation>) returns (bits: seq<seq<bool>>)
    requires SlotsValid(groups, slots)
    ensures BitsExact(groups, slots, ops, bits)
  {
    hide RowExact;
    bits := [];
    for g := 0 to |groups|
      invariant |bits| == g
      invariant forall h :: 0 <= h < g ==> |bits[h]| == |ops| && RowExact(groups, slots, ops, h, bits[h])
    {
      var row := BuildRow(groups, slots, ops, g);
      bits := bits + [row];
    }
  }

  // ------------------------------------------------------------ transpose

  /** The positions of `flags` that are set, ascending. */
  function Positions(flags: seq<bool>): (s: seq<nat>)
    ensures forall i :: i in s <==> 0 <= i < |flags| && flags[i]
    ensures forall k :: 0 <= k < |s| ==> s[k] < |flags|
    ensures forall i, j :: 0 <= i < j < |s| ==> s[i] < s[j]
  {
    if flags == [] then []
    else
      var last := |flags| - 1;
      var init := Positions(flags[..last]);
      if flags[last] then init + [last] else init
  }

  ghost predicate Rectangular(bits: seq<seq<bool>>, width: nat) {
    forall g :: 0 <= g < |bits| ==> |bits[g]| == width
  }

  /** List, for every operation, the groups whose bit is set. */
  method GroupsByOperation(bits: seq<seq<bool>>, width: nat) returns (table: seq<seq<nat>>)
    requires Rectangular(bits, width)
    ensures |table| == width
    ensures forall o, g :: 0 <= o < width && 0 <= g < |bits| ==> (g in table[o] <==> bits[g][o])
    ensures forall o, g :: 0 <= o < width && g in table[o] ==> 0 <= g < |bits|
    ensures forall o, i, j :: 0 <= o < width && 0 <= i < j < |table[o]| ==> table[o][i] < table[o][j]
  {
    table := [];
    for o := 0 to width
      invariant |table| == o
      invariant forall p, g :: 0 <= p < o && 0 <= g < |bits| ==> (g in table[p] <==> bits[g][p])
      invariant forall p, g :: 0 <= p < o && g in table[p] ==> 0 <= g < |bits|
      invariant forall p, i, j :: 0 <= p < o && 0 <= i < j < |table[p]| ==> table[p][i] < table[p][j]
    {
      var column: seq<nat> := [];
      for g := 0 to |bits|
        invariant forall h :: h in column <==> 0 <= h < g && bits[h][o]
        invariant forall i, j :: 0 <= i < j < |column| ==> column[i] < column[j]
        invariant forall i :: 0 <= i < |column| ==> column[i] < g
      {
        if bits[g][o] { column := column + [g]; }
      }
      table := table + [column];
    }
  }

  // ------------------------------------------------------------- row names

  datatype Tables = Tables(operationSlots: map<Name, nat>, groupSlots: map<Name, nat>, bits: seq<seq<bool>>)

  /** The operations a row name stands for. */
  function RowNameOperations(t: Tables, name: Name): Option<seq<nat>> {
    if name in t.operationSlots then Some([t.operationSlots[name]])
    else if name in t.groupSlots && t.groupSlots[name] < |t.bits| then Some(Positions(t.bits[t.groupSlots[name]]))
    else None
  }

  predicate RowNameIncluded(t: Tables, name: Name, expected: Name) {
    name == expected ||
    (var actual, required := RowNameOperations(t, name), RowNameOperations(t, expected);
     && actual.Some? && required.Some?
     && actual.value != [] && required.value != []
     && forall i :: 0 <= i < |actual.value| ==> actual.value[i] in required.value)
  }

  ghost function OperationSet(t: Tables, name: Name): set<nat> {
    match RowNameOperations(t, name) case None => {} case Some(ops) => set o | o in ops
  }

  /** Inclusion of different names is inclusion of nonempty operation sets. */
  lemma RowNameMeaning(t: Tables, name: Name, expected: Name)
    ensures RowNameIncluded(t, name, expected) <==>
            name == expected || (OperationSet(t, name) != {} && OperationSet(t, name) <= OperationSet(t, expected))
  {
    var a, b := RowNameOperations(t, name), RowNameOperations(t, expected);
    if a.Some? {
      assert forall i :: 0 <= i < |a.value| ==> a.value[i] in OperationSet(t, name);
      if a.value != [] { assert a.value[0] in OperationSet(t, name); }
      if OperationSet(t, name) != {} {
        var o :| o in OperationSet(t, name);
        assert o in a.value;
      }
    }
    if b.Some? && b.value == [] { assert OperationSet(t, expected) == {}; }
  }

  /** Inclusion is a preorder, and names included in each other stand for the
      same operations. */
  lemma RowNameOrder(t: Tables, a: Name, b: Name, c: Name)
    ensures RowNameIncluded(t, a, a)
    ensures RowNameIncluded(t, a, b) && RowNameIncluded(t, b, c) ==> RowNameIncluded(t, a, c)
    ensures RowNameIncluded(t, a, b) && RowNameIncluded(t, b, a) ==> OperationSet(t, a) == OperationSet(t, b)
  {
    hide RowNameIncluded, OperationSet;
    RowNameMeaning(t, a, a);
    RowNameMeaning(t, a, b);
    RowNameMeaning(t, b, a);
    RowNameMeaning(t, b, c);
    RowNameMeaning(t, a, c);
  }

  /** An operation name stands for that operation alone, also when a group has
      the same name; an unknown name stands for nothing. */
  lemma OperationNameSet(t: Tables, name: Name)
    ensures name in t.operationSlots ==> OperationSet(t, name) == {t.operationSlots[name]}
    ensures name !in t.operationSlots && name !in t.groupSlots ==> OperationSet(t, name) == {}
  {
  }

  /** For a group name the operation set is the reachable closure. */
  lemma GroupNameClosure(groups: seq<Group>, t: Tables, ops: seq<Operation>, name: Name, o: nat)
    requires SlotsValid(groups, t.groupSlots) && BitsExact(groups, t.groupSlots, ops, t.bits) && o < |ops|
    requires name in t.groupSlots && name !in t.operationSlots
    ensures o in OperationSet(t, name) <==> Includes(groups, t.groupSlots, t.groupSlots[name], ops[o])
  {
    hide Includes;
    var g := t.groupSlots[name];
    assert RowExact(groups, t.groupSlots, ops, g, t.bits[g]);
    assert o in Positions(t.bits[g]) <==> t.bits[g][o];
  }
}
