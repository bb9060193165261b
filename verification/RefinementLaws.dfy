/** What the refinement of one component guarantees: the coarsest stable
    partition, independence of member order, and bounded work. */
module RefinementLaws {
  import opened Common
  import opened Bytes
  import opened Sequences
  import opened Refinement

  // ------------------------------------------------------- bisimulation

  /** `rel` relates members with equal base bytes and equally many
      references, and relates those references position by position. */
  ghost predicate IsBisimulation(base: seq<Text>, refs: seq<seq<nat>>, rel: set<(nat, nat)>)
    requires Component(base, refs)
  {
    forall p :: p in rel ==> RelatedStep(base, refs, rel, p.0, p.1)
  }

  ghost predicate RelatedStep(base: seq<Text>, refs: seq<seq<nat>>, rel: set<(nat, nat)>, i: nat, j: nat)
    requires Component(base, refs)
  {
    && i < |base| && j < |base|
    && base[i] == base[j]
    && |refs[i]| == |refs[j]|
    && forall k :: 0 <= k < |refs[i]| ==> (refs[i][k], refs[j][k]) in rel
  }

  ghost predicate Bisimilar(base: seq<Text>, refs: seq<seq<nat>>, i: nat, j: nat)
    requires Component(base, refs)
  {
    exists rel :: IsBisimulation(base, refs, rel) && (i, j) in rel
  }

  /** No round separates two related members. */
  lemma {:induction false} BisimulationKept(base: seq<Text>, refs: seq<seq<nat>>, rel: set<(nat, nat)>,
                                            k: nat, i: nat, j: nat)
    requires Component(base, refs) && IsBisimulation(base, refs, rel) && (i, j) in rel
    ensures i < |base| && j < |base|
    ensures Iter(base, refs, k)[i] == Iter(base, refs, k)[j]
    decreases k
  {
    hide Iter, Next, Ranks;
    IterUnfold(base, refs, k);
    assert RelatedStep(base, refs, rel, i, j);
    if k == 0 {
      RankExact(base, i, j);
    } else {
      var before := Iter(base, refs, k - 1);
      BisimulationKept(base, refs, rel, k - 1, i, j);
      forall l | 0 <= l < |refs[i]| ensures before[refs[i][l]] == before[refs[j][l]] {
        BisimulationKept(base, refs, rel, k - 1, refs[i][l], refs[j][l]);
      }
      NextExact(before, refs, i, j);
      assert SameView(before, refs, i, j);
    }
  }

  /** Every colour class refines the base classes. */
  lemma {:induction false} IterRefinesBase(base: seq<Text>, refs: seq<seq<nat>>, k: nat, i: nat, j: nat)
    requires Component(base, refs) && i < |base| && j < |base|
    requires Iter(base, refs, k)[i] == Iter(base, refs, k)[j]
    ensures base[i] == base[j]
  {
    hide Iter, Next, Ranks;
    IterUnfold(base, refs, k);
    if k == 0 {
      RankExact(base, i, j);
    } else {
      NextExact(Iter(base, refs, k - 1), refs, i, j);
      IterRefinesBase(base, refs, k - 1, i, j);
    }
  }

  /** In a settled round equal colours mean equal views: the last round,
      counted by classes alone, cannot have moved a member. */
  lemma SettledIsStable(base: seq<Text>, refs: seq<seq<nat>>, k: nat, i: nat, j: nat)
    requires Component(base, refs) && Settled(base, refs, k) && i < |base| && j < |base|
    requires Iter(base, refs, k)[i] == Iter(base, refs, k)[j]
    ensures SameView(Iter(base, refs, k), refs, i, j)
  {
    hide Next;
    var colours := Iter(base, refs, k);
    if Classes(base, refs, k) == |base| {
      if i < j { DistinctFewer(colours, i, j); }
      if j < i { DistinctFewer(colours, j, i); }
    } else {
      var before := Iter(base, refs, k - 1);
      NextRefines(before, refs);
      RefinesDistinct(colours, before);
      NextExact(before, refs, i, j);
      SameViewTransfer(before, colours, refs, i, j);
    }
  }

  lemma SameViewTransfer(before: seq<nat>, colours: seq<nat>, refs: seq<seq<nat>>, i: nat, j: nat)
    requires RoundState(before, refs) && RoundState(colours, refs) && i < |refs| && j < |refs|
    requires Refines(before, colours) && SameView(before, refs, i, j)
    ensures SameView(colours, refs, i, j)
  {
  }

  ghost function ColourRelation(colours: seq<nat>): set<(nat, nat)> {
    set i, j | 0 <= i < |colours| && 0 <= j < |colours| && colours[i] == colours[j] :: (i, j)
  }

  lemma ColoursBisimulate(base: seq<Text>, refs: seq<seq<nat>>, k: nat)
    requires Component(base, refs) && Settled(base, refs, k)
    ensures IsBisimulation(base, refs, ColourRelation(Iter(base, refs, k)))
  {
    hide Iter;
    var rel := ColourRelation(Iter(base, refs, k));
    forall p | p in rel ensures RelatedStep(base, refs, rel, p.0, p.1) {
      IterRefinesBase(base, refs, k, p.0, p.1);
      SettledIsStable(base, refs, k, p.0, p.1);
    }
  }

  /** When refinement succeeds, two members share a colour exactly when
      some bisimulation relates them. */
  lemma RefineIsCoarsestStable(base: seq<Text>, refs: seq<seq<nat>>, remaining: nat, r: Result<Refined>,
                               i: nat, j: nat)
    requires Component(base, refs) && RefineSpec(base, refs, remaining, r) && r.Ok?
    requires i < |base| && j < |base|
    ensures |r.value.colours| == |base|
    ensures r.value.colours[i] == r.value.colours[j] <==> Bisimilar(base, refs, i, j)
  {
    if |base| == 1 {
      var rel := {(0, 0)};
      assert RelatedStep(base, refs, rel, 0, 0);
      assert IsBisimulation(base, refs, rel) && (i, j) in rel;
    } else {
      hide Iter, ComponentRounds, ModuleRounds, Work, PerRound;
      var colours := r.value.colours;
      if colours[i] == colours[j] {
        ColoursBisimulate(base, refs, r.value.rounds);
        assert (i, j) in ColourRelation(colours);
      }
      if Bisimilar(base, refs, i, j) {
        var rel :| IsBisimulation(base, refs, rel) && (i, j) in rel;
        BisimulationKept(base, refs, rel, r.value.rounds, i, j);
      }
    }
  }

  // ----------------------------------------------------------- budgets

  lemma {:induction false} UnsettledPrefix(base: seq<Text>, refs: seq<seq<nat>>, j: nat, k: nat)
    requires Component(base, refs) && UnsettledBefore(base, refs, k) && j <= k
    ensures UnsettledBefore(base, refs, j)
    ensures j < k ==> !Settled(base, refs, j)
    decreases k - j
  {
    hide Settled;
    if j < k { UnsettledPrefix(base, refs, j + 1, k); }
  }

  /** The specification has one answer. */
  lemma RefineDeterministic(base: seq<Text>, refs: seq<seq<nat>>, remaining: nat, r: Result<Refined>,
                            s: Result<Refined>)
    requires Component(base, refs)
    requires RefineSpec(base, refs, remaining, r) && RefineSpec(base, refs, remaining, s)
    ensures r == s
  {
    if |base| > 1 {
      BoundedDeterministic(base, refs, ComponentRounds(PerRound(refs)), ModuleRounds(remaining, PerRound(refs)), r, s);
    }
  }

  lemma BoundedDeterministic(base: seq<Text>, refs: seq<seq<nat>>, component: nat, mod: nat,
                             r: Result<Refined>, s: Result<Refined>)
    requires Component(base, refs)
    requires BoundedSpec(base, refs, component, mod, r) && BoundedSpec(base, refs, component, mod, s)
    ensures r.Ok? <==> s.Ok?
    ensures r.Ok? ==> r.value.colours == s.value.colours && r.value.rounds == s.value.rounds
    ensures r.Err? ==> r.error == s.error
  {
    hide Settled, Iter;
    var limit := if component <= mod then component else mod;
    if r.Ok? {
      if s.Ok? {
        if r.value.rounds < s.value.rounds { UnsettledPrefix(base, refs, r.value.rounds, s.value.rounds); }
        if s.value.rounds < r.value.rounds { UnsettledPrefix(base, refs, s.value.rounds, r.value.rounds); }
      } else {
        UnsettledPrefix(base, refs, r.value.rounds, limit + 1);
      }
    } else if s.Ok? {
      UnsettledPrefix(base, refs, s.value.rounds, limit + 1);
    }
  }

  lemma RoundsBounded(base: seq<Text>, refs: seq<seq<nat>>, k: nat)
    requires Component(base, refs) && |base| >= 1 && UnsettledBefore(base, refs, k)
    ensures k <= |base| - 1
  {
    hide Iter;
    if k > 0 {
      ClassesGrow(base, refs, k - 1);
      ClassesPositive(base, refs, k - 1);
      assert !Settled(base, refs, k - 1);
    }
  }

  lemma DivisionFits(rounds: nat, remaining: nat, per: nat)
    requires per > 0 && rounds <= remaining / per
    ensures rounds * per <= remaining
  {
    assert (remaining / per) * per <= remaining;
    assert rounds * per <= (remaining / per) * per by { MultiplyMonotone(rounds, remaining / per, per); }
  }

  /** The work of one round: every member and every reference is read once. */
  ghost function RoundWork(refs: seq<seq<nat>>): nat {
    |refs| + Sum(Lengths(refs))
  }

  /** `k` rounds are within the component budget of 2^24; one round always is. */
  ghost predicate WithinComponent(k: nat, per: nat) {
    k <= 1 || k * per <= 0x100_0000
  }

  /** `k` rounds are within what the module has left. */
  ghost predicate WithinModule(k: nat, per: nat, remaining: nat) {
    k * per <= remaining
  }

  lemma DivisionExact(k: nat, budget: nat, per: nat)
    requires per > 0
    ensures k <= budget / per <==> k * per <= budget
  {
    var q := budget / per;
    assert q * per <= budget < (q + 1) * per;
    if k <= q { MultiplyMonotone(k, q, per); } else { MultiplyMonotone(q + 1, k, per); }
  }

  lemma RoundBounds(k: nat, per: nat, remaining: nat)
    requires per > 0
    ensures k <= ComponentRounds(per) <==> WithinComponent(k, per)
    ensures k <= ModuleRounds(remaining, per) <==> WithinModule(k, per, remaining)
  {
    DivisionExact(k, REFINE_WORK_BUDGET, per);
    DivisionExact(k, remaining, per);
  }

  /** At most `n - 1` rounds for `n >= 2` members, and never more work than
      the module budget has left. */
  lemma RefineWorkBounded(base: seq<Text>, refs: seq<seq<nat>>, remaining: nat, r: Result<Refined>)
    requires Component(base, refs) && RefineSpec(base, refs, remaining, r) && r.Ok?
    ensures |base| >= 2 ==> r.value.rounds <= |base| - 1
    ensures |base| <= 1 ==> r.value.rounds == 0
    ensures r.value.work <= remaining
    ensures |base| >= 2 ==> r.value.work == r.value.rounds * RoundWork(refs)
  {
    if |base| >= 2 {
      RoundsBounded(base, refs, r.value.rounds);
      DivisionFits(r.value.rounds, remaining, PerRound(refs));
    }
  }

  /** The budget decides only whether the answer arrives: refinement
      succeeds exactly when the first settled round `k` is within both budgets.
      It blames the module exactly when the module has no room for a round that
      the component budget allows. */
  lemma BudgetExact(base: seq<Text>, refs: seq<seq<nat>>, remaining: nat, r: Result<Refined>, k: nat)
    requires Component(base, refs) && |base| >= 2 && RefineSpec(base, refs, remaining, r)
    requires Settled(base, refs, k) && UnsettledBefore(base, refs, k)
    ensures var per := RoundWork(refs);
      && (r.Ok? <==> WithinComponent(k, per) && WithinModule(k, per, remaining))
      && (r.Ok? ==> r.value.rounds == k && r.value.colours == Iter(base, refs, k))
      && (r == Err(ModuleBudget) <==>
            exists j: nat :: 1 <= j <= k && WithinComponent(j, per) && !WithinModule(j, per, remaining))
  {
    hide Settled, Iter, BoundedSpec, Work, ComponentRounds, ModuleRounds, WithinComponent, WithinModule, PerRound,
      RoundWork;
    RoundWorkIs(refs);
    var per := RoundWork(refs);
    BudgetExactBounded(base, refs, ComponentRounds(per), ModuleRounds(remaining, per), r, k);
    RoundBounds(k, per, remaining);
    ModuleBlamed(k, per, remaining);
  }

  lemma RoundWorkIs(refs: seq<seq<nat>>)
    requires refs != []
    ensures RoundWork(refs) == PerRound(refs) > 0
  {
  }

  lemma ModuleBlamed(k: nat, per: nat, remaining: nat)
    requires per > 0
    ensures (exists j: nat :: 1 <= j <= k && WithinComponent(j, per) && !WithinModule(j, per, remaining))
            <==> ModuleRounds(remaining, per) < ComponentRounds(per) && ModuleRounds(remaining, per) < k
  {
    hide ComponentRounds, ModuleRounds, WithinComponent, WithinModule;
    var component, mod := ComponentRounds(per), ModuleRounds(remaining, per);
    RoundBounds(mod + 1, per, remaining);
    forall j: nat | 1 <= j <= k && WithinComponent(j, per) && !WithinModule(j, per, remaining)
      ensures mod < component && mod < k
    {
      RoundBounds(j, per, remaining);
    }
  }

  lemma BudgetExactBounded(base: seq<Text>, refs: seq<seq<nat>>, component: nat, mod: nat, r: Result<Refined>, k: nat)
    requires Component(base, refs) && BoundedSpec(base, refs, component, mod, r)
    requires Settled(base, refs, k) && UnsettledBefore(base, refs, k)
    ensures r.Ok? <==> k <= component && k <= mod
    ensures r.Ok? ==> r.value.rounds == k && r.value.colours == Iter(base, refs, k)
    ensures r == Err(ModuleBudget) <==> mod < component && mod < k
  {
    hide Settled, Iter;
    if r == Err(ModuleBudget) && k <= mod { UnsettledPrefix(base, refs, k, mod + 1); }
    if k <= component && k <= mod {
      BoundedDeterministic(base, refs, component, mod, r, Ok(Refined(Iter(base, refs, k), k, 0)));
    } else if r.Ok? {
      UnsettledPrefix(base, refs, r.value.rounds, k);
    }
  }

  datatype Members = Members(base: seq<Text>, refs: seq<seq<nat>>)

  ghost predicate Components(comps: seq<Members>) {
    forall i :: 0 <= i < |comps| ==> Component(comps[i].base, comps[i].refs)
  }

  /** What the component loop of a module gives: the answers up to the first
      error, and the budget left before each component and at the end. */
  datatype ModuleRun = ModuleRun(answers: seq<Refined>, left: seq<nat>, error: Option<RefineError>)

  ghost function Works(answers: seq<Refined>): seq<nat> {
    seq(|answers|, i requires 0 <= i < |answers| => answers[i].work)
  }

  /** Component `i` was refined with what the earlier ones left, and its work,
      never more than that, was taken off. */
  ghost predicate Spends(comps: seq<Members>, run: ModuleRun, i: nat)
    requires Components(comps) && i < |run.answers| <= |comps| && |run.left| == |run.answers| + 1
  {
    && RefineSpec(comps[i].base, comps[i].refs, run.left[i], Ok(run.answers[i]))
    && run.answers[i].work <= run.left[i]
    && run.left[i + 1] == run.left[i] - run.answers[i].work
  }

  /** One budget for the whole module. The loop stops at the first component
      whose refinement fails under what is left. */
  ghost predicate ModuleSpec(comps: seq<Members>, run: ModuleRun)
    requires Components(comps)
  {
    var n := |run.answers|;
    && n <= |comps| && |run.left| == n + 1 && run.left[0] == MODULE_REFINE_WORK_BUDGET
    && (forall i :: 0 <= i < n ==> Spends(comps, run, i))
    && match run.error
       case None => n == |comps|
       case Some(e) => n < |comps| && RefineSpec(comps[n].base, comps[n].refs, run.left[n], Err(e))
  }

  /** The component loop of one module: the work of every component comes
      out of one budget, and the clipping `min` never clips. */
  method RefineModule(comps: seq<Members>) returns (run: ModuleRun)
    requires Components(comps)
    ensures ModuleSpec(comps, run)
  {
    hide RefineSpec;
    var budget := MODULE_REFINE_WORK_BUDGET;
    run := ModuleRun([], [budget], None);
    for i := 0 to |comps|
      invariant |run.answers| == i && run.error == None
      invariant |run.left| == i + 1 && run.left[0] == MODULE_REFINE_WORK_BUDGET && run.left[i] == budget
      invariant forall k :: 0 <= k < i ==> Spends(comps, run, k)
    {
      var r := RefineColours(comps[i].base, comps[i].refs, budget);
      ghost var before := run;
      if r.Err? {
        run := run.(error := Some(r.error));
        forall k | 0 <= k < i ensures Spends(comps, run, k) { assert Spends(comps, before, k); }
        return;
      }
      RefineWorkBounded(comps[i].base, comps[i].refs, budget, r);
      budget := budget - (if r.value.work < budget then r.value.work else budget);
      run := run.(answers := run.answers + [r.value], left := run.left + [budget]);
      forall k | 0 <= k <= i ensures Spends(comps, run, k) { assert k < i ==> Spends(comps, before, k); }
    }
  }

  /** The whole module does at most 2^25 units of work, and what is left at any
      point is the budget less the work done so far. */
  lemma {:induction false} ModuleWorkBounded(comps: seq<Members>, run: ModuleRun, k: nat)
    requires Components(comps) && ModuleSpec(comps, run) && k <= |run.answers|
    ensures Sum(Works(run.answers[..k])) + run.left[k] == 0x200_0000
  {
    hide RefineSpec;
    if k == 0 {
      assert Works(run.answers[..0]) == [];
    } else {
      ModuleWorkBounded(comps, run, k - 1);
      assert Spends(comps, run, k - 1);
      assert Works(run.answers[..k]) == Works(run.answers[..k - 1]) + [run.answers[k - 1].work];
      SumSnoc(Works(run.answers[..k - 1]), run.answers[k - 1].work);
    }
  }

  /** A module has one run: its answers, its budgets and its error. */
  lemma ModuleDeterministic(comps: seq<Members>, a: ModuleRun, b: ModuleRun)
    requires Components(comps) && ModuleSpec(comps, a) && ModuleSpec(comps, b)
    ensures a == b
  {
    hide RefineSpec;
    var n := if |a.answers| < |b.answers| then |a.answers| else |b.answers|;
    SameSpending(comps, a, b, n);
    if n < |comps| {
      if a.error.Some? && |a.answers| == n && n < |b.answers| {
        assert Spends(comps, b, n);
        RefineDeterministic(comps[n].base, comps[n].refs, a.left[n], Err(a.error.value), Ok(b.answers[n]));
      } else if b.error.Some? && |b.answers| == n && n < |a.answers| {
        assert Spends(comps, a, n);
        RefineDeterministic(comps[n].base, comps[n].refs, a.left[n], Err(b.error.value), Ok(a.answers[n]));
      } else {
        RefineDeterministic(comps[n].base, comps[n].refs, a.left[n], Err(a.error.value), Err(b.error.value));
      }
    }
    assert a.answers == b.answers && a.left == b.left;
  }

  lemma {:induction false} SameSpending(comps: seq<Members>, a: ModuleRun, b: ModuleRun, k: nat)
    requires Components(comps) && ModuleSpec(comps, a) && ModuleSpec(comps, b)
    requires k <= |a.answers| && k <= |b.answers|
    ensures a.answers[..k] == b.answers[..k] && a.left[..k + 1] == b.left[..k + 1] && a.left[k] == b.left[k]
  {
    hide RefineSpec;
    if k > 0 {
      SameSpending(comps, a, b, k - 1);
      var i := k - 1;
      assert Spends(comps, a, i) && Spends(comps, b, i);
      RefineDeterministic(comps[i].base, comps[i].refs, a.left[i], Ok(a.answers[i]), Ok(b.answers[i]));
      assert a.answers[..k] == a.answers[..i] + [a.answers[i]] && b.answers[..k] == b.answers[..i] + [b.answers[i]];
      assert a.left[..k + 1] == a.left[..k] + [a.left[k]] && b.left[..k + 1] == b.left[..k] + [b.left[k]];
    }
  }

  lemma {:induction false} SumSnoc(s: seq<nat>, x: nat)
    ensures Sum(s + [x]) == Sum(s) + x
  {
    if s != [] {
      SumSnoc(s[1..], x);
      assert (s + [x])[1..] == s[1..] + [x];
    }
  }

  // ------------------------------------------------------ member order

  /** The component listed in another order: member `i` of the second is
      member `p[i]` of the first, with every reference renamed alike. */
  ghost predicate Relabelled(base: seq<Text>, refs: seq<seq<nat>>, base': seq<Text>, refs': seq<seq<nat>>, p: seq<nat>)
    requires Component(base, refs) && Component(base', refs')
  {
    && |base'| == |base| == |p|
    && IsPermutation(p, |base|)
    && (forall i :: 0 <= i < |p| ==> p[i] < |base| && base'[i] == base[p[i]] && |refs'[i]| == |refs[p[i]]|)
    && (forall i, k :: 0 <= i < |p| && 0 <= k < |refs'[i]| ==> p[refs'[i][k]] == refs[p[i]][k])
  }

  /** Ranking a permuted list permutes the ranks. */
  lemma RanksPermuted(values: seq<Text>, values': seq<Text>, p: seq<nat>)
    requires |values'| == |values| == |p| && IsPermutation(p, |values|)
    requires forall i :: 0 <= i < |p| ==> p[i] < |values| && values'[i] == values[p[i]]
    ensures forall i :: 0 <= i < |p| ==> Ranks(values')[i] == Ranks(values)[p[i]]
  {
    SameElements(values, values', p);
    forall i | 0 <= i < |p| ensures Ranks(values')[i] == Ranks(values)[p[i]] {
      assert Below(values', values'[i]) == Below(values, values[p[i]]);
    }
  }

  lemma SameElements<T>(values: seq<T>, values': seq<T>, p: seq<nat>)
    requires |values'| == |values| == |p| && IsPermutation(p, |values|)
    requires forall i :: 0 <= i < |p| ==> p[i] < |values| && values'[i] == values[p[i]]
    ensures forall v :: v in values' <==> v in values
  {
    PermutationBasics(p, |values|);
    forall v | v in values ensures v in values' {
      var j :| 0 <= j < |values| && values[j] == v;
      assert j in p;
      var i :| 0 <= i < |p| && p[i] == j;
      assert values'[i] == v;
    }
  }

  lemma SignaturesPermuted(colours: seq<nat>, refs: seq<seq<nat>>, colours': seq<nat>, refs': seq<seq<nat>>,
                           p: seq<nat>, i: nat)
    requires RoundState(colours, refs) && RoundState(colours', refs')
    requires |refs'| == |refs| == |p| && i < |p|
    requires forall l :: 0 <= l < |p| ==> p[l] < |refs| && colours'[l] == colours[p[l]]
    requires |refs'[i]| == |refs[p[i]]|
    requires forall k :: 0 <= k < |refs'[i]| ==> p[refs'[i][k]] == refs[p[i]][k]
    ensures Signatures(colours', refs')[i] == Signatures(colours, refs)[p[i]]
  {
    hide Words;
    var a, b := [i] + refs'[i], [p[i]] + refs[p[i]];
    WordsExact(colours', a, colours, b);
    assert Pick(colours', a) == Pick(colours, b);
  }

  lemma {:induction false} IterPermuted(base: seq<Text>, refs: seq<seq<nat>>,
                                        base': seq<Text>, refs': seq<seq<nat>>, p: seq<nat>, k: nat)
    requires Component(base, refs) && Component(base', refs') && Relabelled(base, refs, base', refs', p)
    ensures forall i :: 0 <= i < |p| ==> Iter(base', refs', k)[i] == Iter(base, refs, k)[p[i]]
    decreases k
  {
    hide Iter, Next, Ranks;
    IterUnfold(base, refs, k);
    IterUnfold(base', refs', k);
    if k == 0 {
      RanksPermuted(base, base', p);
    } else {
      IterPermuted(base, refs, base', refs', p, k - 1);
      NextPermuted(Iter(base, refs, k - 1), refs, Iter(base', refs', k - 1), refs', p);
    }
  }

  lemma NextPermuted(colours: seq<nat>, refs: seq<seq<nat>>, colours': seq<nat>, refs': seq<seq<nat>>, p: seq<nat>)
    requires RoundState(colours, refs) && RoundState(colours', refs')
    requires |refs'| == |refs| == |p| && IsPermutation(p, |refs|)
    requires forall i :: 0 <= i < |p| ==> p[i] < |refs| && colours'[i] == colours[p[i]] && |refs'[i]| == |refs[p[i]]|
    requires forall i, k :: 0 <= i < |p| && 0 <= k < |refs'[i]| ==> p[refs'[i][k]] == refs[p[i]][k]
    ensures forall i :: 0 <= i < |p| ==> Next(colours', refs')[i] == Next(colours, refs)[p[i]]
  {
    hide Words;
    forall i | 0 <= i < |p| ensures Signatures(colours', refs')[i] == Signatures(colours, refs)[p[i]] {
      SignaturesPermuted(colours, refs, colours', refs', p, i);
    }
    RanksPermuted(Signatures(colours, refs), Signatures(colours', refs'), p);
  }

  lemma ClassesPermuted(base: seq<Text>, refs: seq<seq<nat>>,
                        base': seq<Text>, refs': seq<seq<nat>>, p: seq<nat>, k: nat)
    requires Component(base, refs) && Component(base', refs') && Relabelled(base, refs, base', refs', p)
    ensures Classes(base', refs', k) == Classes(base, refs, k)
  {
    hide Iter;
    IterPermuted(base, refs, base', refs', p, k);
    var c, c' := Iter(base, refs, k), Iter(base', refs', k);
    SameElements(c, c', p);
    DistinctSame(c', c);
  }

  lemma SettledPermuted(base: seq<Text>, refs: seq<seq<nat>>,
                        base': seq<Text>, refs': seq<seq<nat>>, p: seq<nat>, k: nat)
    requires Component(base, refs) && Component(base', refs') && Relabelled(base, refs, base', refs', p)
    ensures Settled(base', refs', k) <==> Settled(base, refs, k)
  {
    hide Classes;
    ClassesPermuted(base, refs, base', refs', p, k);
    if k > 0 { ClassesPermuted(base, refs, base', refs', p, k - 1); }
  }

  lemma {:induction false} UnsettledPermuted(base: seq<Text>, refs: seq<seq<nat>>,
                                             base': seq<Text>, refs': seq<seq<nat>>, p: seq<nat>, k: nat)
    requires Component(base, refs) && Component(base', refs') && Relabelled(base, refs, base', refs', p)
    ensures UnsettledBefore(base', refs', k) <==> UnsettledBefore(base, refs, k)
    decreases k
  {
    hide Settled;
    if k > 0 {
      SettledPermuted(base, refs, base', refs', p, k - 1);
      UnsettledPermuted(base, refs, base', refs', p, k - 1);
    }
  }

  lemma PerRoundPermuted(base: seq<Text>, refs: seq<seq<nat>>, base': seq<Text>, refs': seq<seq<nat>>, p: seq<nat>)
    requires Component(base, refs) && Component(base', refs') && Relabelled(base, refs, base', refs', p)
    ensures PerRound(refs') == PerRound(refs)
  {
    PickPermutation(Lengths(refs), p);
    assert Lengths(refs') == Pick(Lengths(refs), p);
    SumPermuted(Lengths(refs'), Lengths(refs));
  }

  ghost predicate SameUpTo(r: Refined, r': Refined, p: seq<nat>) {
    && |r'.colours| == |p|
    && (forall i :: 0 <= i < |p| ==> p[i] < |r.colours| && r'.colours[i] == r.colours[p[i]])
    && r'.rounds == r.rounds && r'.work == r.work
  }

  /** Refinement ignores member order: listing the members in another order
      permutes the colours and leaves the rounds, the work and the verdict
      unchanged. */
  lemma RefineIgnoresOrder(base: seq<Text>, refs: seq<seq<nat>>, base': seq<Text>, refs': seq<seq<nat>>,
                           p: seq<nat>, remaining: nat, r: Result<Refined>, r': Result<Refined>)
    requires Component(base, refs) && Component(base', refs') && Relabelled(base, refs, base', refs', p)
    requires RefineSpec(base, refs, remaining, r) && RefineSpec(base', refs', remaining, r')
    ensures r.Err? ==> r' == r
    ensures r.Ok? ==> r'.Ok? && SameUpTo(r.value, r'.value, p)
  {
    PerRoundPermuted(base, refs, base', refs', p);
    if |base| > 1 {
      hide ComponentRounds, ModuleRounds, Work, PerRound, Iter;
      var per := PerRound(refs);
      BoundedPermuted(base, refs, base', refs', p, ComponentRounds(per), ModuleRounds(remaining, per), r, r');
    }
  }

  lemma BoundedPermuted(base: seq<Text>, refs: seq<seq<nat>>, base': seq<Text>, refs': seq<seq<nat>>,
                        p: seq<nat>, component: nat, mod: nat, r: Result<Refined>, r': Result<Refined>)
    requires Component(base, refs) && Component(base', refs') && Relabelled(base, refs, base', refs', p)
    requires BoundedSpec(base, refs, component, mod, r) && BoundedSpec(base', refs', component, mod, r')
    ensures r.Err? ==> r'.Err? && r'.error == r.error
    ensures r.Ok? ==> r'.Ok? && r'.value.rounds == r.value.rounds
    ensures r.Ok? ==> |r'.value.colours| == |r.value.colours| == |p|
    ensures r.Ok? ==> forall i :: 0 <= i < |p| ==> r'.value.colours[i] == r.value.colours[p[i]]
  {
    hide Settled, Iter;
    match r {
      case Ok(Refined(_, used, _)) =>
        UnsettledPermuted(base, refs, base', refs', p, used);
        SettledPermuted(base, refs, base', refs', p, used);
        BoundedDeterministic(base', refs', component, mod, r', Ok(Refined(Iter(base', refs', used), used, 0)));
        IterPermuted(base, refs, base', refs', p, used);
      case Err(ComponentBudget) =>
        UnsettledPermuted(base, refs, base', refs', p, component + 1);
        BoundedDeterministic(base', refs', component, mod, r', r);
      case Err(ModuleBudget) =>
        UnsettledPermuted(base, refs, base', refs', p, mod + 1);
        BoundedDeterministic(base', refs', component, mod, r', r);
    }
  }
}
