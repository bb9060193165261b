# Loom toolchain: a verified model of its core

This project models the algorithmic core of the Loom toolchain in Dafny 4.11
and proves what that core is for. `dafny verify dfyconfig.toml` checks all of it.

| part | modules |
|---|---|
| the shared store of closed types, its views, imports and substitution | `ClosedTypes`, `TypeTable`, `TypeImport`, `TypeStore`, `ModuleTypes`, `EffectRows`, `Substitution`, `Embedding`, `ClosedForms`, `ClosedCaches`, `CloseWalk`, `TypeViews` |
| structural refinement for definition identity | `Sequences`, `Refinement`, `RefinementLaws`, `ComponentBytes`, `ComponentExact` |
| portable syntax records: encode, view, detach, build | `SyntaxFormat`, `SyntaxTree`, `SyntaxLayout`, `SyntaxDetach`, `SyntaxBuild` |
| the canonical graph walk | `GraphWalk` |
| ABI operation groups | `Bundle` |
| closure bodies and interface inheritance | `ClosureBodies`, `Inheritance` |
| the optional debug section | `DebugSection` |
| uniform sampling | `Sampler` |
| shared notions; bytes and little-endian words; UTF-8 | `Common`, `Bytes`, `Utf8` |

Code that updates state in the source is written as classes and methods with
loops and is proved against functions on values; the laws are lemmas about those
functions.

How the main parts are modelled:

- **The type store.** `TypeStore` is a state machine: one store, a published count
  word, any number of views and any number of prepared plans. Every locked section
  of the source is one atomic step, taken at the moment the count word is
  published. `Run` folds any sequence of steps of any views, so a lemma about `Run`
  speaks of every interleaving. `TypeViews` holds the same operations as objects.
  There `SharedStore.Yield` stands at every point where another view may enter: its
  contract gives a caller only that the store stays valid and grows at its end,
  which is what `TypeStore.StepKeeps` proves of every step of every other view.
- **Types as trees.** An entry of a type table means the tree it unfolds to
  (`ClosedTypes.Unfold`). Interning, importing and closing are all stated through
  that tree. `Substitution.Subst` is the plain recursive substitution that the
  iterative, memoised `close` is compared with.
- **One module per store.** A view carries the module it closes types for. Module
  types name earlier types only, which the identity preflight enforces
  (`crates/lm-bytecode/src/identity.rs:404-488`). Environments that are interned or
  imported name existing types; the invariant carries this to every environment of
  the store, of every view and of every plan.
- **Environments that have not arrived.** An environment id can reach a view before
  the record does. Closing under it finds no arguments, memoises that, and the memo
  can be wrong once the record arrives. `ClosedForms.UnitTooEarly` is the smallest case,
  and `ClosedForms.StaysClosed` says exactly when an answer stays right. A view keeps
  the memo keys it closed too early in a ghost field. Everything else is proved
  right, and a memoised type is proved to be answered from the memo
  (`TypeViews.CloseTwice`). The "exception named at close" below is: the environment
  arrives during the call, or a part of the type that reaches a variable was
  memoised before the environment arrived.
- **Refinement.** A member is a sequence of plain fields, outside references and
  holes, one hole per reference into the component. Its base is the sequence with
  the holes blanked. Members follow one `Layout`: the bytes so far decide what stands
  next, a field of known width or a tagged reference. That members with equal bases
  have their holes at the same places is then proved (`ComponentBytes.SamePlaces`).
- **Syntax.** `SyntaxLayout.Syntax` is a subtree apart from any table, and
  `SyntaxLayout.Compact` is its one compact preorder encoding. Detaching and
  building are both stated as "the bytes are the compact encoding of this subtree".
- **Machine integers** are unbounded numbers with explicit limits. Every check the
  source makes against 32 bits is in the model.

## Model

| member | source | states |
|---|---|---|
| `TypeStore.StepKeeps` | crates/lm-bytecode/src/closed.rs:439-534 | one step of any view keeps: every view a prefix of the store, sizes within the caps, published counts equal to the store's, every environment of the store, of every view and of every plan naming existing types, every plan good for the prefix it was made against; store and views only grow |
| `TypeStore.InternTypeMeans` | crates/lm-bytecode/src/closed.rs:880-936 | an intern step of a node over the view that is at most 128 deep and that the store holds or has room for: the view is the store and holds the node, exactly that node was appended if it was missing, the counts are published and nothing else changes; otherwise nothing changes at all |
| `TypeStore.InternEnvMeans` | crates/lm-bytecode/src/closed.rs:939-979 | the same for environments; the empty one takes no step |
| `TypeStore.OtherStepsMean` | crates/lm-bytecode/src/closed.rs:498-534 | a sync step makes the view the store and changes nothing else; a clone is a copy under a free name; a prepare step adds the plan under a free name if and only if preparing succeeds |
| `TypeStore.LockedSteps` | crates/lm-bytecode/src/closed.rs:841-971 | the store after each locked section is the store after the step |
| `TypeStore.RunKeeps` | crates/lm-bytecode/src/closed.rs:356-534 | the same over every interleaving of sync, fork, intern, intern_env, prepare and commit by any number of views, from an empty store |
| `TypeStore.RunGrows` | crates/lm-bytecode/src/closed.rs:452-534 | between any two moments of a run the store and every view only gain records at their end |
| `TypeStore.FastPathExact` | crates/lm-bytecode/src/closed.rs:498-508 | in every reachable state the packed-count comparison skips a sync if and only if the view is already the whole store, indices included |
| `TypeStore.TypeIdsForever` | crates/lm-bytecode/src/closed.rs:880-936 | an id once in the store names the same node and the same unfolded type in every view that holds it at every later time; a complete view holds it |
| `TypeStore.EnvIdsForever` | crates/lm-bytecode/src/closed.rs:939-979 | the same for environment ids |
| `TypeStore.ViewsAgree` | crates/lm-bytecode/src/closed.rs:498-534 | in every reachable state two views unfold two ids to the same type if and only if the ids are equal |
| `TypeStore.LengthsDecide` | crates/lm-bytecode/src/closed.rs:833-874 | for a plan made against this store, matching lengths alone guarantee that the contents it was made against are unchanged, so appending it is sound |
| `TypeStore.CommitMeans` | crates/lm-bytecode/src/closed.rs:680-874 | for a Prepare action of a run and a Commit action of any view at any later time: a stale plan changes neither store, counts nor any view; otherwise view and store both become the store with exactly the plan appended, well formed and within the caps, every source type unfolds as in the source, and every source environment keeps its rows and its trees |
| `TypeStore.PreparedStays` | crates/lm-bytecode/src/closed.rs:680-874 | a prepared plan waits unchanged until somebody commits it, whatever other views do |
| `TypeStore.LockedTypeKeeps` | crates/lm-bytecode/src/closed.rs:904-928 | the locked section of intern, with a depth computed from an older view, keeps the store well formed and capped and answers an id of the node, or is full with the store unchanged |
| `TypeStore.LockedEnvKeeps` | crates/lm-bytecode/src/closed.rs:952-971 | the locked section of intern_env likewise |
| `TypeStore.PackedInjective` | crates/lm-bytecode/src/closed.rs:408-410 | the packed word determines both lengths |
| `TypeTable.CanonicalForm` | crates/lm-bytecode/src/closed.rs:880-936 | in every well-formed table children precede parents, ids are equal if and only if the unfolded types are, the index is the exact inverse of the table, and the stored depth is the true height and at most 128 |
| `TypeTable.CatchUp` | crates/lm-bytecode/src/closed.rs:439-466 | appending the delta of a prefix gives exactly the store, indices included |
| `TypeTable.SameLengths` | crates/lm-bytecode/src/closed.rs:833-837 | a prefix of the same lengths is the table itself |
| `TypeTable.NodePresent` | crates/lm-bytecode/src/closed.rs:880-887 | a node is found in the index at an id if and only if that id unfolds to the tree of the node |
| `TypeTable.PushTypeKeeps` | crates/lm-bytecode/src/closed.rs:911-927 | appending a new node with the computed depth keeps the table well formed |
| `ClosedTypes.RemapChildren` | crates/lm-bytecode/src/closed.rs:104-157 | remapping applies the map to every child in canonical order and changes nothing else |
| `ClosedTypes.NodeDetermined` | crates/lm-bytecode/src/closed.rs:104-157 | a node is determined by its shape and its children |
| `ClosedTypes.UnfoldInjective` | crates/lm-bytecode/src/closed.rs:880-887 | in a table without repeated nodes equal unfolded types have equal ids |
| `ClosedTypes.UnfoldGrows` | crates/lm-bytecode/src/closed.rs:41-46 | growing a table changes no unfolding |
| `TypeImport.ImportPreserves` | crates/lm-bytecode/src/closed.rs:468-495 | importing a plan keeps the table well formed, capped and extended at its end; every source type unfolds to the tree of its mapped id; every source environment keeps its rows and, type by type, its trees |
| `TypeImport.PrepareExact` | crates/lm-bytecode/src/closed.rs:680-828 | preparing reports the type cap if and only if a source type is more than 128 deep or the distinct new types do not fit, and the environment cap if and only if the types fit and the distinct new environments do not |
| `TypeImport.EmptyMapsToZero` | crates/lm-bytecode/src/closed.rs:769-772 | a source environment maps to environment zero if and only if it is empty |
| `TypeImport.PrepareNamed` | crates/lm-bytecode/src/closed.rs:752-794 | the planned environments name types of the extended table |
| `TypeImport.PlanTypeKeeps` | crates/lm-bytecode/src/closed.rs:698-740 | one more source type keeps the plan sound, whether it is found in the view, found in the plan or planned |
| `TypeImport.PlanEnvKeeps` | crates/lm-bytecode/src/closed.rs:752-794 | one more source environment keeps the plan sound |
| `TypeViews.SharedStore.constructor` | crates/lm-bytecode/src/closed.rs:356-406 | a new store is valid, holds only the empty environment, and has room for it whatever cap is asked |
| `TypeViews.SharedStore.LockedIntern` | crates/lm-bytecode/src/closed.rs:904-928 | answers an id of the node; exactly the node is appended if it was missing; fails if and only if it is missing and the store is at its cap; the new store is the one of the step of the state machine; the counts are published |
| `TypeViews.SharedStore.LockedInternEnv` | crates/lm-bytecode/src/closed.rs:952-971 | likewise for environments |
| `TypeViews.SharedStore.LockedCommit` | crates/lm-bytecode/src/closed.rs:841-871 | the plan is appended if and only if the store still has its base lengths, otherwise nothing changes; the new store is the one of the commit step |
| `TypeViews.TypeEnvs.constructor` | crates/lm-bytecode/src/closed.rs:374-406 | the first view is valid, holds the empty environment and has empty caches |
| `TypeViews.TypeEnvs.Apply` | crates/lm-bytecode/src/closed.rs:452-466 | the view becomes the old view with the delta appended record by record |
| `TypeViews.TypeEnvs.SyncShared` | crates/lm-bytecode/src/closed.rs:498-508 | whatever other views do meanwhile, the view ends equal to the store, nothing it held moves, and its caches stay correct |
| `TypeViews.TypeEnvs.ForkShared` | crates/lm-bytecode/src/closed.rs:511-534 | the fork is a fresh valid view of the same store, module and bundle with the same complete contents and empty caches |
| `TypeViews.TypeEnvs.Intern` | crates/lm-bytecode/src/closed.rs:880-936 | answers the id of the node; fails if and only if the node is not in the view and a child is missing, its type is more than 128 deep, or the store is at its cap without it |
| `TypeViews.TypeEnvs.InternEnv` | crates/lm-bytecode/src/closed.rs:939-979 | answers the id of an environment that names types of the view; fails if and only if the store does not hold it and is at its cap |
| `TypeViews.TypeEnvs.PrepareImport` | crates/lm-bytecode/src/closed.rs:680-828 | adds no record and answers the plan of the specification against the synchronised view, good for this store |
| `TypeViews.TypeEnvs.CommitImport` | crates/lm-bytecode/src/closed.rs:833-874 | succeeds if and only if neither view nor store has left the base lengths; then exactly the plan is appended to both; a stale plan changes nothing |
| `TypeViews.PlanTypesLoop` | crates/lm-bytecode/src/closed.rs:698-740 | the loop over source types computes the plan of the specification, including its first failure |
| `TypeViews.PlanEnvsLoop` | crates/lm-bytecode/src/closed.rs:752-794 | the loop over source environments likewise |
| `TypeViews.FindDepth` | crates/lm-bytecode/src/closed.rs:892-901 | the depth loop of intern: one past the deepest child, or nothing if a child is missing |
| `TypeViews.FindPlanDepth` | crates/lm-bytecode/src/closed.rs:717-736 | the depth loop of prepare, over the view and the planned entries |
| `TypeViews.TypeEnvs.CloseFlat` | crates/lm-bytecode/src/closed.rs:1048-1170 | with its children closed, a node gets the id that unfolds to its substitution, and fails only when it is too deep or the store is at its cap without it; both with the exception named at close; an environment that is not held has no arguments |
| `TypeViews.TypeEnvs.CloseLoop` | crates/lm-bytecode/src/closed.rs:1011-1042 | the explicit stack ends, closes every child before its parent so no child is ever missing, changes no memo entry, and memoises the wanted type; it fails only when the type cannot be closed, with the exception named at close |
| `TypeViews.TypeEnvs.Close` | crates/lm-bytecode/src/closed.rs:990-1045 | for any type and any environment id: a memoised type is answered from the memo and nothing changes; otherwise the answer unfolds to the recursive substitution, and it fails if and only if the type is more than 128 deep, or the store is at its cap and lacks the tree of the type or of something below it; exception: the environment arrives during the call, or a part of the type that reaches a variable was memoised before it arrived; only such keys are noted, and memo entries never change |
| `TypeViews.TypeEnvs.CloseEach` | crates/lm-bytecode/src/closed.rs:1227-1230 | closes the type arguments of an application in order, with the exception named at close |
| `TypeViews.TypeEnvs.Derive` | crates/lm-bytecode/src/closed.rs:1205-1250 | for any parent: a cached derivation is answered from the cache; otherwise the answer is the environment of the closed arguments and rows (the empty one for an unknown application), and it fails if and only if an argument cannot be closed or the store is at its cap and holds no such environment; with the exception named at close, for the parent |
| `TypeViews.TypeEnvs.CacheDerived` | crates/lm-bytecode/src/closed.rs:1236-1250 | a derivation is cached if and only if the parent is held and the cache is below its cap; cached derivations never change |
| `TypeViews.CloseTwice` | crates/lm-bytecode/src/closed.rs:996-1008 | asked again after catching up, a view repeats its first answer whatever has arrived, also when that answer was right only for want of the environment |
| `Embedding.ClosingClosed` | crates/lm-bytecode/src/closed.rs:1061-1169 | closing an already closed type is the identity: any closed type table, read as module types constructor by constructor, closes to the trees it unfolds to, whatever the arguments |
| `Embedding.ClosingOpen` | crates/lm-bytecode/src/closed.rs:1061-1093 | a bound variable closes to its argument; an unbound one, never and an unknown type close to unit |
| `ClosedForms.ClosesUnique` | crates/lm-bytecode/src/closed.rs:990-1045 | a type under an environment has one closed id, whenever it is asked for and however the table has grown, unless the environment arrived in between and the type depends on it: cache hit and miss agree |
| `ClosedForms.StaysClosed` | crates/lm-bytecode/src/closed.rs:1074-1092 | a closed form stays the closed form in every later table within the caps if and only if its environment is held or past the cap, or its type reaches no variable, or only unit can ever be bound and the type reaches no row variable; all of it can be checked before the call |
| `ClosedForms.ClosedTooEarly` | crates/lm-bytecode/src/closed.rs:1074-1092 | for every other closed form there is a later table within the caps, holding the environment, in which the memoised id is wrong |
| `ClosedForms.UnitTooEarly` | crates/lm-bytecode/src/closed.rs:1074-1092 | the smallest such case: a variable closed under environment 1 before it is held is unit, and environment 1 then arrives and binds it to bool |
| `Substitution.NotGround` | crates/lm-bytecode/src/closed.rs:1074-1196 | a type that reaches a variable means something else once arguments arrive, unless they are all unit and it reaches no row variable |
| `Substitution.UnitSubst` | crates/lm-bytecode/src/closed.rs:1079-1093 | without row variables, arguments that are all unit are as good as none |
| `Substitution.GroundSubst` | crates/lm-bytecode/src/closed.rs:1061-1196 | a type that reaches no variable means the same under all arguments |
| `ClosedCaches.DerivesUnique` | crates/lm-bytecode/src/closed.rs:1211-1221 | an application derives one environment id, hit or miss, however the table has grown, with the same exception |
| `ClosedCaches.CachesGrow` | crates/lm-bytecode/src/closed.rs:452-466 | whatever arrives, memo, last answer and derivation cache stay right for every key that was not closed too early |
| `ClosedCaches.CachesAdd` | crates/lm-bytecode/src/closed.rs:1037-1044 | one more memo entry, noted when it comes too early, spoils no other entry |
| `ClosedCaches.ClosedNotTooMuch` | crates/lm-bytecode/src/closed.rs:1011-1045 | a closed type is at most 128 deep and the store holds it with everything below it |
| `ClosedForms.ClosesGrows` | crates/lm-bytecode/src/closed.rs:996-1008 | a memo entry stays correct while the table grows, with the same exception |
| `ClosedCaches.BuiltMeans` | crates/lm-bytecode/src/closed.rs:1061-1169 | a node built from closed children and its closed row means the recursive substitution |
| `Substitution.BuildParts` | crates/lm-bytecode/src/closed.rs:1896-1915 | the children of the built node are the closed children of the module node in declaration order |
| `CloseWalk.PopTop` | crates/lm-bytecode/src/closed.rs:1015-1038 | popping a closed frame keeps: every child of an expanded frame is closed or waits above it |
| `CloseWalk.OpenTop` | crates/lm-bytecode/src/closed.rs:1015-1038 | expanding a frame keeps the same |
| `CloseWalk.KidsClosed` | crates/lm-bytecode/src/closed.rs:1054-1060 | when an expanded frame is popped all its children are closed, so the expect cannot fail |
| `CloseWalk.OpenLighter` | crates/lm-bytecode/src/closed.rs:1015-1038 | expanding a frame lowers the weight of the stack, so the walk ends |
| `EffectRows.CanonicalRowExact` | crates/lm-bytecode/src/closed.rs:1963-1967 | sort and dedup give a strictly ascending row of the same slots |
| `EffectRows.StrictUnique` | crates/lm-bytecode/src/closed.rs:1963-1967 | a strictly ascending row is determined by the set of its slots |
| `EffectRows.CloseRow` | crates/lm-bytecode/src/closed.rs:1175-1196 | the loop computes the closed row of the specification |
| `EffectRows.ClosedRowExact` | crates/lm-bytecode/src/closed.rs:1175-1196 | a closed row is strictly ascending and holds exactly the operations that its operations, groups and bound variables stand for |
| `EffectRows.ClosedRowUnique` | crates/lm-bytecode/src/closed.rs:1175-1196 | rows standing for the same operations close to the same row |
| `Refinement.Rank` | crates/lm-bytecode/src/identity.rs:3004-3020 | the colour of a value is the number of different smaller values; the count is the number of classes |
| `Refinement.RankExact` | crates/lm-bytecode/src/identity.rs:3004-3020 | two values share a colour if and only if they are equal |
| `Bytes.LessExact` | crates/lm-bytecode/src/identity.rs:3004-3020 | the order that ranks are taken in is lexicographic: at the first difference the smaller string has the smaller byte or has ended |
| `Refinement.WordsExact` | crates/lm-bytecode/src/identity.rs:3073-3087 | two signatures are equal bytes if and only if they are equal colour lists: words cannot slip |
| `Refinement.NextExact` | crates/lm-bytecode/src/identity.rs:3072-3089 | after a round two members share a colour if and only if they shared one and their references agree position by position |
| `Refinement.RefineColours` | crates/lm-bytecode/src/identity.rs:3040-3096 | answers the colours of the first settled round, or the budget that stops it before that round |
| `RefinementLaws.RefineIsCoarsestStable` | crates/lm-bytecode/src/identity.rs:3040-3096 | on success two members share a colour if and only if some bisimulation relates them, despite the early exit on the class count |
| `RefinementLaws.SettledIsStable` | crates/lm-bytecode/src/identity.rs:3088-3093 | when the class count stops growing no member moved |
| `RefinementLaws.RefineDeterministic` | crates/lm-bytecode/src/identity.rs:3040-3096 | the specification has one answer |
| `RefinementLaws.RefineWorkBounded` | crates/lm-bytecode/src/identity.rs:3040-3096 | at most n-1 rounds for n >= 2 members; the work is the rounds times members plus references, and at most the remaining budget |
| `RefinementLaws.BudgetExact` | crates/lm-bytecode/src/identity.rs:3051-3072 | with the work of a round the members plus the references, refinement succeeds if and only if the first settled round k is at most 1 or costs at most 2^24, and costs at most what the module has left; it blames the module if and only if some round up to k is within the component budget and past what is left |
| `RefinementLaws.RefineModule` | crates/lm-bytecode/src/identity.rs:3459-3461 | each component is refined with what the earlier ones left of 2^25, its work never exceeds that and is taken off, so the min never clips; the loop stops at the first component whose refinement fails under what is left |
| `RefinementLaws.ModuleWorkBounded` | crates/lm-bytecode/src/identity.rs:79-91 | the works so far and what is left always sum to 2^25 |
| `RefinementLaws.ModuleDeterministic` | crates/lm-bytecode/src/identity.rs:3459-3461 | a module has one run: its answers, its budgets and its error |
| `RefinementLaws.RefineIgnoresOrder` | crates/lm-bytecode/src/identity.rs:3040-3096 | permuting the members permutes the colours and leaves rounds, work and errors unchanged |
| `ComponentBytes.SameColourSameBytes` | crates/lm-bytecode/src/identity.rs:3462-3470 | members of one colour emit equal bytes, for members of any one layout |
| `ComponentBytes.SamePlaces` | crates/lm-bytecode/src/identity.rs:1638-1656 | members of one layout have equal first-round bytes if and only if they have the same fields and their references at the same places |
| `ComponentBytes.EmitExact` | crates/lm-bytecode/src/identity.rs:1638-1656 | final bytes of members of one layout are equal if and only if the fields are the same and the references have equal colours place by place |
| `ComponentBytes.ReadBack` | crates/lm-bytecode/src/identity.rs:1638-1656 | reading the bytes of a member gives back its fields, its outside references, and a blank or the colour for each reference inside |
| `ComponentBytes.SortByColour` | crates/lm-bytecode/src/identity.rs:3469-3470 | the order is a permutation by ascending colour |
| `ComponentBytes.EmitComponent` | crates/lm-bytecode/src/identity.rs:3469-3500 | the bytes are header, member count and length-framed members by ascending colour |
| `ComponentBytes.EncodingIgnoresOrder` | crates/lm-bytecode/src/identity.rs:3429-3500 | the component bytes are the same for every ordering of the members, for members of any one layout |
| `ComponentExact.EncodingExact` | crates/lm-bytecode/src/identity.rs:3429-3500 | two refined components have equal bytes if and only if they are the same colour by colour: equally many members of each colour, with the same fields and references to the same colours |
| `ComponentExact.SameBytesSameColour` | crates/lm-bytecode/src/identity.rs:3462-3470 | members that emit equal bytes have one colour |
| `ClosureBodies.ClosureBodyDigests` | crates/lm-bytecode/src/identity.rs:3106-3187 | over every closure graph, cyclic or not, it ends with the digests of the recursion that carries the active path and marks targets on it; on graphs without cycles these are the digests of plain recursion |
| `ClosureBodies.RefsSay` | crates/lm-bytecode/src/identity.rs:2778-2797 | a body names each closure body it makes in instruction order: by the first list position of one on the path, or the reserved word, and by the digest of any other |
| `ClosureBodies.MarkersDiffer` | crates/lm-bytecode/src/identity.rs:2782-2787 | different listed closures get different markers |
| `ClosureBodies.DrainedExpand` | crates/lm-bytecode/src/identity.rs:3162-3182 | expanding a body leaves unchanged what the stack still adds to the digests |
| `ClosureBodies.DigestsCover` | crates/lm-bytecode/src/identity.rs:3122-3187 | every listed closure is digested, and nothing outside the graph |
| `ClosureBodies.TopResolved` | crates/lm-bytecode/src/identity.rs:1771-1776 | when a body is serialised each closure target is final, done or on the active path, so the expect cannot fail |
| `ClosureBodies.ExpandTop` | crates/lm-bytecode/src/identity.rs:3162-3182 | expanding a body keeps the walk invariant: no body is on the path twice, every need is covered |
| `ClosureBodies.FinishTop` | crates/lm-bytecode/src/identity.rs:3131-3161 | finishing a body moves it from the path to the digests and keeps the walk invariant |
| `Inheritance.CheckInheritance` | crates/lm-bytecode/src/identity.rs:564-597 | accepts if and only if no chain of parents has more than 128 edges; a cycle is reported only when there is one |
| `Inheritance.CycleUnbounded` | crates/lm-bytecode/src/identity.rs:564-597 | a cyclic parent graph has chains of every length, so it is never accepted |
| `Inheritance.LongChainCycles` | crates/lm-bytecode/src/identity.rs:595-597 | a chain longer than the number of interfaces repeats one |
| `SyntaxFormat.EncodeSyntax` | crates/lm-abi/src/syntax.rs:180-224 | the loop computes the encoding, or the reference or length error |
| `SyntaxFormat.EncodedOpens` | crates/lm-abi/src/syntax.rs:76-116 | an encoding opens as a view of its own counts if and only if its root record passes the checks |
| `SyntaxFormat.EncodedRecord` | crates/lm-abi/src/syntax.rs:125-161 | reading record i of an encoding gives record i, or the error of its first failing check |
| `SyntaxFormat.EncodedLink` | crates/lm-abi/src/syntax.rs:163-177 | reading child entry i of an encoding gives entry i, or a reference error when it names no record |
| `SyntaxFormat.RecordChecks` | crates/lm-abi/src/syntax.rs:125-161 | a record passes if and only if its class fits its kind, its range is in the source and its child entries are in the table; which check is blamed |
| `SyntaxFormat.OpenedIsEncoded` | crates/lm-abi/src/syntax.rs:76-161 | whatever opens and whose records all check is byte for byte the encoding of what is read from it, under the fixed header |
| `SyntaxFormat.OpenFaults` | crates/lm-abi/src/syntax.rs:76-116 | the first thing wrong with bytes that do not open: magic, versions, root, size, root record |
| `SyntaxFormat.ReadFaults` | crates/lm-abi/src/syntax.rs:125-177 | errors of reading outside the table, an unknown class, a reserved byte, and a child past its list |
| `SyntaxTree.WalkExact` | crates/lm-abi/src/syntax.rs:363-399 | the marked depth-first walk succeeds if and only if the records under the index form a tree with nested ranges; it then lists that tree in preorder |
| `SyntaxTree.RepresentsUnique` | crates/lm-abi/src/syntax.rs:363-399 | the records under an index form at most one tree |
| `SyntaxDetach.DetachOrder` | crates/lm-abi/src/syntax.rs:365-399 | the stack loop computes the walk of the specification, error for error |
| `SyntaxDetach.EmitRecords` | crates/lm-abi/src/syntax.rs:400-441 | the emitted tables are the compact preorder layout of the walked tree with ranges moved to zero |
| `SyntaxDetach.DetachSyntax` | crates/lm-abi/src/syntax.rs:357-448 | answers what the specification says, for every input |
| `SyntaxDetach.DetachExact` | crates/lm-abi/src/syntax.rs:357-448 | detach succeeds if and only if the view opens and the reachable records form a tree with nested ranges; the result is the compact form of that tree and its former range |
| `SyntaxDetach.TreeFits` | crates/lm-abi/src/syntax.rs:400-441 | such a tree has at most as many items as the table, so the 32-bit casts never truncate |
| `SyntaxLayout.LayoutSizes` | crates/lm-abi/src/syntax.rs:408-441 | a compact layout has one record per item and one child entry per item but the root |
| `SyntaxDetach.CompactReads` | crates/lm-abi/src/syntax.rs:76-177 | a compact form opens as a view and holds its item at position zero |
| `SyntaxDetach.PlacedReads` | crates/lm-abi/src/syntax.rs:125-177 | a layout anywhere in a table reads back as the item it lays out |
| `SyntaxDetach.DetachAgain` | crates/lm-abi/src/syntax.rs:357-448 | detaching a detached item again is the identity |
| `SyntaxBuild.BuildSyntaxNode` | crates/lm-abi/src/syntax.rs:250-328 | answers what the specification says, for every input: the built bytes, or the first error in part order |
| `SyntaxBuild.BuildSucceeds` | crates/lm-abi/src/syntax.rs:250-328 | building succeeds if and only if the kind is a node kind, every part can be detached alone without splitting a character, and the joined text and the records with the new one fit 32 bits |
| `SyntaxBuild.BuiltUtf8` | crates/lm-abi/src/syntax.rs:263-274 | the text of a built node is UTF-8 when the texts of its parts are |
| `Utf8.BoundaryExact` | crates/lm-abi/src/syntax.rs:265-268 | in UTF-8 text an offset is a character boundary if and only if the text before it is UTF-8; then so is the text after it |
| `SyntaxBuild.AddPart` | crates/lm-abi/src/syntax.rs:263-304 | one part appends its text, its moved records, its raised child entries and its root, or gives its error |
| `SyntaxBuild.CopyPart` | crates/lm-abi/src/syntax.rs:275-304 | copying succeeds if and only if the moved range and the new positions fit 32 bits; the result is the moved layout |
| `SyntaxBuild.CopyRecord` | crates/lm-abi/src/syntax.rs:275-304 | one record is copied with its moved range and its raised child entries, or the part does not fit 32 bits |
| `SyntaxBuild.BuiltOpens` | crates/lm-abi/src/syntax.rs:250-328 | a built node, also one without parts, opens over its text; its root spans all of it; child k is part k for every k; the children tile the text in order |
| `SyntaxBuild.BuildThenDetach` | crates/lm-abi/src/syntax.rs:250-448 | detaching child k of a built node gives exactly the record bytes and source text that detaching part k alone gives |
| `SyntaxBuild.BuiltIsPart` | crates/lm-abi/src/syntax.rs:250-328 | a built node is a valid part again: the node of that kind over the whole text with the parts side by side |
| `SyntaxBuild.BuildSyntaxLeaf` | crates/lm-abi/src/syntax.rs:331-354 | the compact form of a leaf, or the kind or length error |
| `SyntaxBuild.LeafIsPart` | crates/lm-abi/src/syntax.rs:331-354 | a built leaf is a valid part that names itself |
| `GraphWalk.Walk` | crates/lm-graph/src/engine.rs:94-139 | the stack loop answers exactly the specification: the listed objects with the total charge, or the first fault in traversal order (work limit, dead reference, object or byte limit, visitor, edge limit) with what was listed before it |
| `GraphWalk.WalkMeans` | crates/lm-graph/src/engine.rs:94-139 | the answer in terms of the recursive preorder: done if and only if the preorder is live, accepted by the visitor and within the limits, and then it is that preorder with its total cost; a live and accepted graph can only fail by a limit |
| `GraphWalk.FaultMeans` | crates/lm-graph/src/engine.rs:106-137 | a failed walk names its cause and the cause is there: a limit passed by what is listed and the next object, a dead reference reached in a slot that is not listed, or the visitor refusing the object listed last |
| `GraphWalk.WalkSucceedsExactly` | crates/lm-graph/src/engine.rs:94-139 | with live references and an accepting visitor the walk succeeds if and only if work, objects, edges and bytes of the reachable set are within the limits; it then lists exactly the reachable objects once each |
| `GraphWalk.PreorderIsReachableSet` | crates/lm-graph/src/engine.rs:82-93 | the recursive preorder lists exactly the live reachable references, each once, and the slot of every reachable reference; a dead one shares the slot of a listed one |
| `GraphWalk.DoneListsReachable` | crates/lm-graph/src/engine.rs:94-139 | whenever a walk is done, under any limits and any visitor, it lists exactly that; nothing dead was reached if and only if no slot was reached under two names |
| `GraphWalk.ListedAllLive` | crates/lm-heap/src/lib.rs:600-616 | the same condition for any such listing |
| `GraphWalk.StalePassedOver` | crates/lm-heap/src/lib.rs:600-604 | the smallest success that passes over a dead reference: one slot under its current and an old generation |
| `GraphWalk.PreorderRenamed` | crates/lm-graph/src/engine.rs:82-93 | heaps that are the same up to a renaming of slots give corresponding orders |
| `GraphWalk.TraverseRenamed` | crates/lm-graph/src/engine.rs:82-139 | heaps that are the same up to a renaming of slots, walked by visitors that answer alike, give the same cost or the same fault after listing corresponding objects |
| `GraphWalk.IndexExact` | crates/lm-heap/src/lib.rs:645-651 | two live references share a work-table slot only when they are the same reference |
| `GraphWalk.GraphScratch.Record` | crates/lm-heap/src/lib.rs:606-616 | recording marks the slot in this epoch and gives the next ordinal |
| `Bundle.ValidateGroupMembers` | crates/lm-abi/src/bundle.rs:676-727 | accepts if and only if members are distinct and known and the group graph has no cycle |
| `Bundle.BuildGroupBits` | crates/lm-abi/src/bundle.rs:729-785 | a bit is set if and only if some group reachable from the group owns the operation or lists its name |
| `Bundle.GroupsByOperation` | crates/lm-abi/src/bundle.rs:556-563 | the per-operation lists are the exact transpose, ascending |
| `Bundle.Positions` | crates/lm-abi/src/bundle.rs:288-309 | the operations of a group are exactly its set bits, ascending |
| `Bundle.RowNameMeaning` | crates/lm-abi/src/bundle.rs:311-341 | inclusion of distinct row names is inclusion of their operation sets, both known and nonempty |
| `Bundle.RowNameOrder` | crates/lm-abi/src/bundle.rs:328-341 | inclusion is reflexive and transitive, and names included in each other stand for the same operations |
| `Bundle.OperationNameSet` | crates/lm-abi/src/bundle.rs:311-327 | an operation name stands for that operation alone, an unknown name for nothing |
| `Bundle.GroupNameClosure` | crates/lm-abi/src/bundle.rs:318-327 | the operations of a group name are those some reachable group owns or lists |
| `DebugSection.Encode` | crates/lm-bytecode/src/debug.rs:160-207 | the loops write the format of the specification |
| `DebugSection.Decode` | crates/lm-bytecode/src/debug.rs:208-287 | the cursor reads what the specification reads, error for error |
| `DebugSection.DecodeEncode` | crates/lm-bytecode/src/debug.rs:160-287 | decoding an encoded section gives it back if and only if every stored length fits its 32-bit field |
| `DebugSection.DecodedIsEncoded` | crates/lm-bytecode/src/debug.rs:208-287 | whatever nonempty input decodes is byte for byte the spelled-out encoding of what it decodes to |
| `DebugSection.PrefixRefused` | crates/lm-bytecode/src/debug.rs:208-287 | every nonempty strict prefix of an encoding is refused |
| `DebugSection.EncodedFront` | crates/lm-bytecode/src/debug.rs:160-175 | only the empty section takes no bytes; any other begins with the magic, version 2 and its number of sources |
| `Utf8.Utf8Exact` | crates/lm-bytecode/src/debug.rs:464-474 | text is accepted if and only if it is the UTF-8 encoding of Unicode scalar values |
| `DebugSection.SectionRead` | crates/lm-bytecode/src/debug.rs:455-462 | the minimum-item-size guard never rejects a genuine section |
| `Sampler.SampleUniformBelow` | crates/lm-abi/src/lib.rs:2546-2555 | the result is the first accepted draw modulo the span |
| `Sampler.UniformPreimages` | crates/lm-abi/src/lib.rs:2546-2555 | each residue below the span has exactly floor(2^64/span) accepted values |
| `Sampler.FewRejected` | crates/lm-abi/src/lib.rs:2546-2555 | fewer than half of all 64-bit values are rejected |

## Left out

- Projection types, interface conformance and method environments (`crates/lm-bytecode/src/closed.rs:1094-1141` and `1251-1698`): `close` re-enters itself through conformance templates, and its termination rests on verifier rules outside these files.
- TypeViews.TypeEnvs.Close: when the environment arrives during the call, or arrived after a part of the type that reaches a variable was memoised, the contract promises only some entry of the table; the source's memo can be wrong there (`ClosedForms.StaysClosed`).
- TypeViews.TypeEnvs.CloseFlat: the same exception.
- TypeViews.TypeEnvs.CloseLoop: the same exception.
- TypeViews.TypeEnvs.CloseEach: the same exception.
- TypeViews.TypeEnvs.InternEnv: the source does not check that an environment names existing types; the model asks it of the caller. `derive` and imports meet it; the callers in the machine and in snapshot admission are not modelled.
- TypeViews.TypeEnvs.Derive: the same exception for the parent environment; the sorted per-environment cache vectors are one map keyed by parent and application; their order is not modelled.
- TypeViews.TypeEnvs.CommitImport: does not cover a plan prepared against another store.
- Memory ordering of the count word below the level of locked sections, lock poisoning, the exclusive-owner shortcut that skips the lock, metrics, digests of closed types and allocation failure.
- The content hash is an arbitrary function, or bytes are compared before hashing; nothing rests on collision resistance.
- Sampler.SampleUniformBelow: a run in which no draw is ever accepted is excluded by a witness, because it has no result.
- GraphWalk.Walk: the heap is a map from slots to objects with generations; page layout and the text of substrings are not modelled, and the counters are unbounded where the source has 64 bits.
- ComponentBytes.SameColourSameBytes: holds for members of any layout; that the encodings of classes, functions and closure bodies are such a layout is not proved, because those encodings are not spelled out.
- ComponentBytes.EncodingIgnoresOrder: the same.
- ComponentExact.EncodingExact: the same, for a layout of the final bytes as well; member lengths are below 2^64 and member counts below 2^32.
- ComponentBytes.EmitComponent: whole-module closure hashes are not modelled.
- Refinement.RefineColours: the number of members is at most 2^32, as the colour words require.
- The debug section's validation against a module and its relocation, bundle name rules and digests, manifests, the compiler, the command line and the host.
