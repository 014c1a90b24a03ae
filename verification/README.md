# Verified model of the Fabko SAT solver

This project models the CDCL solver of Fabko's compiler backend and proves that it decides
satisfiability, as long as its 32-bit restart threshold does not wrap around to zero, and when
that can happen. The solver keeps one mutable context: a variable table, a clause table that
grows, a trail of assignments, a decision level and a restart counter. It propagates unit
clauses to a fixpoint, analyses conflicts backwards along the trail, learns clauses, jumps
back several levels, restarts with a multiplied threshold, and decides on the most active free
variable.

| file | content |
|---|---|
| `Cnf.dfy`, `Clauses.dfy` | literals, models, valuations; clauses bound to the variable table, partial assignments, sorting and deduplication |
| `Search.dfy` | the search state as a value, its invariant, the steps and why each keeps it |
| `Runs.dfy` | what the trail implies; backtracking as undo |
| `Analysis.dfy` | the implication graph of a conflict, unique implication points, the frontier of a resolution |
| `Learning.dfy` | what a learned clause is, why it is new, the jump, the termination measure |
| `Resolution.dfy` | the invariant of the analysis loop |
| `Reachability.dfy` | runs of the whole search |
| `Sweeps.dfy` | the order of propagation and one turn of the main loop as functions and relations on states; that propagation ends and that the whole search is deterministic |
| `Passes.dfy` | what a propagation pass does, said of the trail it leaves |
| `Vsids.dfy`, `Watcher.dfy` | activities; the two watched variables of a clause |
| `SolverContext.dfy` | the context class and its methods, up to `SolveSat` |
| `Loading.dfy`, `CnfFile.dfy`, `Solver.dfy` | from CNF lines to a context; the public solver; a whole file |
| `Thresholds.dfy` | the 32-bit restart threshold over many restarts |
| `Departures.dfy` | three inputs, taken from a fresh context to their first conflict, where the code differs from the textbook |
| `Endless.dfy` | two satisfiable inputs on which the search never ends |

The class methods work on the fields in place. `Context.View()` reads the search fields off
as a `State`; each method's contract equates the new view with a step function of the old
one, or relates the two, and the lemmas are about `State`.

## Conventions and preconditions

- Satisfaction is defined over total truth assignments to variable numbers.
- The declared variables are nonzero and distinct up to sign. The source does not check this.
- `decay_interval` is at least one and the decay ratio is not zero.
- `restart_threshold` is a 32-bit field and its product wraps around. A call that never returns
  is an outcome, `NeverReturns`. The model leaves the loop with it exactly where the state
  satisfies `Context.Stuck`, which `Turn` proves every later turn keeps: the model has no
  variable (the loop's guard asks whether the solution has a literal), or the threshold is zero
  and propagation at level zero leaves a variable free (each turn restarts and repeats the first
  decision). The test for that is the only statement of `SolveSat` that the source does not have.
- Clauses may repeat variables. Only the claims that need distinct variables say so, and the
  exact role of a repetition in the analysis is in `Learning.StopsAtFirstUip`.
- Assertions are those of the debug build: an undeclared literal, an empty clause and wrong
  counts in a file are errors. `std::vector` capacities are exact after `reserve` and double
  when a push finds no room.
- The fields `decision_level_` of unassigned variables keep stale values, as in the source.

## Findings

- The jump level counts only literals that antecedents add, so it can lie below the asserting
  level, and the learned clause is then not unit after the jump. `Learning.UnitAfterJump`
  gives the exact condition, on the conflict and its implication point alone.
  `Departures.JumpMissesAssertingLevel` is a case and `Departures.LowRun` meets it in three turns
  of the main loop from a fresh context. Termination and soundness hold for this rule.
- A conflict clause that repeats a propagated variable makes the analysis resolve past the
  first unique implication point (`Departures.RepetitionMissesFirstUip`, met by
  `Departures.RepeatedRun`).
- The learned clause can have exactly the literals of a clause in the table, but only of one that
  repeats the implication point's variable (`Learning.LearnedIsNew`;
  `Departures.LearnsKnownLiterals`, met by `Departures.SameRun`), so never of another learned
  clause, whose variables are distinct (`Learning.LearnedDiffer`, over any run by
  `Reachability.RunKeeps`).
- The threshold field reaches zero if and only if it starts there or the multiplier is even
  (`Thresholds.VanishesWhenEven`); the default multiplier is two, and thirty restarts, or
  12884901788 conflicts, take it there (`Thresholds.DefaultVanishes`). From then on the search ends
  only if propagation at level zero finds a conflict or assigns every variable, so never on a
  satisfiable model that leaves some variable open (`SolveSat`, `Context.UndeterminedKeepsGoing`).
  `Endless.EitherNeverReturns` is the clause (1 2) under threshold zero;
  `Endless.WrapNeverReturns` is a model of five clauses on which threshold 2 with multiplier
  2147483648 wraps around after four turns.
- `SolveSat` returns on every model with a variable if the threshold is positive and the multiplier
  odd, or if the thresholds of the first 32 restarts add up to more than four to the number of
  variables (`Thresholds.Outlasts`, which is exact about the field by `Thresholds.OutlastsExactly`).
- A learned clause gets its watcher while all its literals are false, so the watcher is empty
  (`Watcher.FalsifiedUnwatched`, kept by the context invariant).
- `clause_watcher::replace` reads an empty slot when the last unassigned literal sits in the
  second slot alone (`Watcher.RunBreaks`, `Watcher.HalfEmptyBreaks`).
- The decay step is documented as a decrease, but it divides by 0.95. A positive activity is
  lowered if and only if the ratio is above one (`Vsids.DecayLowers`).
- The guard against a second `p` line looks at the capacity of the clause vector, so it lets one
  through after headers that declare no clauses (`CnfFile.HeaderRefused`,
  `CnfFile.TwoHeadersAccepted`).
- The clause count check also passes for the declared count times a power of two, and for a
  declared zero at any power of two (`CnfFile.CountCheck`).
- `solve(n)` returns n copies of one result.

## Model

| member | source | states |
|---|---|---|
| SolverContext.Context.SolveSat | fabko/compiler/backend/sat/solver_impl.cpp:316-369 | if it returns, then with a result exactly when the model's clauses are satisfiable, and the result has one literal per variable and satisfies every clause; it returns whenever there is a variable and the configured thresholds outlast four to the number of variables conflicts; it does not return only from a stuck state; once the next threshold is zero it does not return exactly when propagation at level zero leaves a variable free, as it does on every model that two assignments satisfy differently; the states, activities and counters it passes are a search; called again on a finished context it finds the same and changes no field, or at threshold zero only the counters |
| SolverContext.Context.Turn | fabko/compiler/backend/sat/solver_impl.cpp:318-367 | one turn of the loop is a run of search steps, and the state, activities and counters after it are determined; without a result it either uses up a learnable clause, or clears a due restart, or lengthens the trail, as long as the threshold is positive; restarts happen exactly when due; once the threshold is zero the turn ends the search or leaves it stuck, and a stuck search stays stuck |
| SolverContext.Context.Step | fabko/compiler/backend/sat/solver_impl.cpp:330-367 | the turn after any restart: the state, activities and counters it leads to, what ends it, what it leaves unchanged, and at level zero exactly when it ends nothing |
| SolverContext.Context.ThresholdVanished | fabko/compiler/backend/sat/solver_context.hh:79-80 | a context's threshold is zero only by its configuration: it started there or the multiplier is even, and by default only after thirty restarts and 12884901788 conflicts |
| SolverContext.Context.StuckTakesLong | fabko/compiler/backend/sat/solver_impl.cpp:327 | a stuck search with a variable has waited for more conflicts than the configured thresholds outlast |
| SolverContext.Context.UndeterminedKeepsGoing | fabko/compiler/backend/sat/solver_impl.cpp:319-328 | with a zero threshold, a model that two assignments satisfy differently leaves a variable free at level zero |
| SolverContext.Context.DecideOrFinish | fabko/compiler/backend/sat/solver_impl.cpp:348-366 | without a conflict the turn decides on the first most active variable, or has a solution when none is free: the final check never fails |
| SolverContext.Context.HandleConflict | fabko/compiler/backend/sat/solver_impl.cpp:330-346 | gives up exactly at level zero, where the model has no satisfying assignment; otherwise the table gains an entailed analysed clause, the level drops and fewer clauses are left to learn |
| SolverContext.Context.LearnAndJump | fabko/compiler/backend/sat/solver_impl.cpp:344-346 | the state after learning and jumping, activities and statistics included |
| SolverContext.Context.Restart | fabko/compiler/backend/sat/solver_impl.cpp:319-328 | back to level zero, counter cleared, the threshold becomes the product modulo the width of its 32-bit field, and the count of conflicts waited for is kept |
| SolverContext.Context.UnitPropagation | fabko/compiler/backend/sat/solver_impl.cpp:219-276 | terminates; the trail grows by passes over the table, each of which adds something and meets no false clause but the last, which meets one or adds nothing; only extends the assignment, by propagations at the current level; ends with a false clause, or with every clause satisfied or keeping two open literals; counts the propagations of every pass but one that a conflict ends |
| SolverContext.Context.PropagationPass | fabko/compiler/backend/sat/solver_impl.cpp:267-275 | the entries it adds have strictly increasing reasons; each clause up to the conflict, when the pass came to it, was satisfied, had two open positions, or was unit and is the reason of the entry added next; the conflict is false under exactly those entries |
| SolverContext.Context.PropagateClause | fabko/compiler/backend/sat/solver_impl.cpp:221-265 | a settled clause is left alone, a false one reported; of a unit one the open literal is made true at the current level with the clause as its reason and goes onto the trail |
| SolverContext.Context.ResolveConflict | fabko/compiler/backend/sat/solver_impl.cpp:95-192 | at every level the clause is entailed by the table and false; above level zero it is exactly the analysed clause, with its jump level and implication point |
| SolverContext.Context.ScanTrail | fabko/compiler/backend/sat/solver_impl.cpp:120-137 | stops at a propagated variable still to be resolved, having passed only positions that do not lead to the conflict and the decision; it does not run out above level zero if the conflict's variables are distinct |
| SolverContext.Context.ResolveAt | fabko/compiler/backend/sat/solver_impl.cpp:139-177 | one resolution moves one position into the resolved set |
| SolverContext.Context.AddAntecedent | fabko/compiler/backend/sat/solver_impl.cpp:153-168 | appends exactly the antecedent's other literals that are missing, repeating no variable that was not repeated before, and tracks current-level variables and jump level |
| SolverContext.Context.Backtrack | fabko/compiler/backend/sat/solver_impl.cpp:200-217 | the state cut back to a level |
| SolverContext.Context.LearnAdditionalClause | fabko/compiler/backend/sat/solver_impl.cpp:278-286 | appends a nonempty clause and its watcher, ignores an empty one |
| SolverContext.Context.MakeDecision | fabko/compiler/backend/sat/solver_impl.cpp:288-314 | decides exactly when a variable is free: the first most active one is set to on, gets the next level and goes onto the trail; the highest level so far is kept |
| SolverContext.Context.UpdateVsidsActivity | fabko/compiler/backend/sat/solver_impl.cpp:59-85 | each row is divided by a million if an activity of the clause is within an increment of the 64-bit maximum, then gains one increment for each position in the clause, then is divided by the decay ratio if the interval divides the count of conflicts; quotients are pinned by inequalities |
| SolverContext.Context.constructor | fabko/compiler/backend/sat/solver.cpp:30-64 | an indexed model gives a valid context with nothing assigned and all counters at zero |
| SolverContext.PropagationForced | fabko/compiler/backend/sat/solver_impl.cpp:219-276 | propagation loses no satisfying valuation that agreed with the old trail |
| SolverContext.LevelZeroUnsat | fabko/compiler/backend/sat/solver_impl.cpp:335-338 | a conflict at level zero refutes the model |
| SolverContext.ReadOffSolves | fabko/compiler/backend/sat/solver_impl.cpp:353-363 | the literals read off a satisfying full assignment solve the model |
| Search.PropagateKeeps | fabko/compiler/backend/sat/solver_impl.cpp:251-263 | propagating keeps trail, implication graph and the level-wise fixpoint |
| Search.DecideKeeps | fabko/compiler/backend/sat/solver_impl.cpp:300-311 | deciding on a settled table keeps them, one level more |
| Search.BackToKeeps | fabko/compiler/backend/sat/solver_impl.cpp:200-217 | backtracking restores the invariant from any graph quiet below the target level |
| Search.BackToExact | fabko/compiler/backend/sat/solver_impl.cpp:200-217 | backtracking keeps precisely the trail prefix with levels up to the target and clears assignment and reason of the rest |
| Search.DecisionOf | fabko/compiler/backend/sat/solver_impl.cpp:288-314 | each level above zero starts with its single decision |
| Search.LevelsAscend | fabko/compiler/backend/sat/solver_impl.cpp:200-314 | levels never decrease along the trail and rise at a decision |
| Runs.TrailForced | fabko/compiler/backend/sat/solver_impl.cpp:251-263 | a satisfying valuation that agrees with the decisions agrees with every assignment |
| Runs.EntailedByDecisions | fabko/compiler/backend/sat/solver_impl.cpp:251-263 | what is assigned at levels up to k follows from the table and the decisions of levels 1 to k |
| Runs.LevelZeroConflict | fabko/compiler/backend/sat/solver_impl.cpp:335-338 | a false clause with no decision in force: no valuation satisfies the table |
| Runs.FullIsSatisfied | fabko/compiler/backend/sat/solver_impl.cpp:352-356 | settled and fully assigned means satisfied |
| Runs.BacktrackUndoesRun | fabko/compiler/backend/sat/solver_impl.cpp:200-217 | deciding, any run of propagations and deeper decisions, then backtracking restores the search state |
| Reachability.NextKeeps | fabko/compiler/backend/sat/solver_impl.cpp:316-369 | every step keeps the invariant and the meaning of the table; only learning uses up learnable clauses |
| Reachability.RunKeeps | fabko/compiler/backend/sat/solver_impl.cpp:316-369 | over any run: the invariant, tables that follow from the model, learned clauses new among all before them, and a bound on the number of conflicts |
| Reachability.ReachableEntailed | fabko/compiler/backend/sat/solver_impl.cpp:316-369 | in every reachable state, levels up to k follow from the model and the decisions of levels 1 to k |
| Analysis.ReasonHasPeer | fabko/compiler/backend/sat/solver_impl.cpp:153-168 | a propagation above level zero has a cause on its own level |
| Analysis.ConflictAtCur | fabko/compiler/backend/sat/solver_impl.cpp:99-108 | a conflict above level zero has two literal positions at the current level |
| Analysis.BypassFromDecision | fabko/compiler/backend/sat/solver_impl.cpp:116-118 | a chain to the conflict that avoids w and starts before w extends back to the level's decision |
| Analysis.SharedIsNotUip | fabko/compiler/backend/sat/solver_impl.cpp:118-178 | a position resolved while others were open is no implication point |
| Analysis.CutIsUip | fabko/compiler/backend/sat/solver_impl.cpp:118-178 | one current-level variable left on the frontier is a unique implication point, and which later ones there can be |
| Analysis.FrontierStep | fabko/compiler/backend/sat/solver_impl.cpp:144-168 | resolving at one position changes the frontier by exactly its variable and its reason |
| Analysis.ResolventEntailed | fabko/compiler/backend/sat/solver_impl.cpp:144-168 | a resolvent of entailed clauses is entailed |
| Resolution.PartialStart | fabko/compiler/backend/sat/solver_impl.cpp:99-114 | the analysis loop's invariant holds of the conflict clause |
| Resolution.PartialStep | fabko/compiler/backend/sat/solver_impl.cpp:139-177 | one resolution keeps it: frontier, entailment, current-level variables with their repetitions, jump level |
| Resolution.ScanSucceeds | fabko/compiler/backend/sat/solver_impl.cpp:120-137 | with distinct variables and two of them current, the backward scan finds an antecedent and the early exit is not taken |
| Resolution.ScanExhausted | fabko/compiler/backend/sat/solver_impl.cpp:134-137 | when the scan runs out, only the level's decision is left |
| Resolution.SortedSame | fabko/compiler/backend/sat/solver_impl.cpp:180-183 | sorting and deduplicating loses no literal |
| Resolution.LoopDone | fabko/compiler/backend/sat/solver_impl.cpp:118-191 | however the loop ends above level zero, its clause is the analysed one |
| Clauses.UniqueKeepsVariables | fabko/compiler/backend/sat/solver_impl.cpp:180-183 | deduplication keeps every variable |
| Learning.StopsAtFirstUip | fabko/compiler/backend/sat/solver_impl.cpp:118-178 | the analysis stops at the first unique implication point if and only if that is a decision or the conflict clause does not repeat it |
| Learning.AnalysisTeaches | fabko/compiler/backend/sat/solver_impl.cpp:95-192 | the analysed clause is strictly sorted by variable and false, has one current-level variable, keeps the conflict's lower literals, and its jump level is below the current one |
| Learning.AnalysedOnce | fabko/compiler/backend/sat/solver_impl.cpp:95-192 | a conflict has one analysis: the learned clause, the jump level and the implication point are determined |
| Learning.DistinctStopsAtFirstUip | fabko/compiler/backend/sat/solver_impl.cpp:118-178 | with distinct variables in the conflict clause it is always the first |
| Learning.JumpIsBelow | fabko/compiler/backend/sat/solver_impl.cpp:162-167 | the jump goes strictly down and, above zero, to the level of another learned literal |
| Learning.LearnedIsNew | fabko/compiler/backend/sat/solver_impl.cpp:95-192 | a clause of the table that has the learned clause's literals repeats the implication point's variable |
| Learning.LearnedAmong | fabko/compiler/backend/sat/solver_impl.cpp:95-192 | the learned clause has distinct variables and the literals of no clause with distinct variables in the table |
| Learning.LearnedDiffer | fabko/compiler/backend/sat/solver_impl.cpp:316-369 | the learned clauses of a table are pairwise different sets of literals |
| Learning.LearnedQuiet | fabko/compiler/backend/sat/solver_impl.cpp:344-345 | below the jump level the learned clause keeps two open literals |
| Learning.JumpKeeps | fabko/compiler/backend/sat/solver_impl.cpp:344-345 | learning then jumping restores the invariant, frees the implication point and unfalsifies the clause |
| Learning.UnitAfterJump | fabko/compiler/backend/sat/solver_impl.cpp:113-191 | the learned clause is unit after the jump if and only if each lower literal of the conflict above level zero is matched, at no lower a level, by one that the resolved reasons bring in |
| Learning.LowIsCovered | fabko/compiler/backend/sat/solver_impl.cpp:113-191 | that condition holds exactly when the conflict's lower literals are not above the jump level |
| Learning.LearningShrinks | fabko/compiler/backend/sat/solver_impl.cpp:316-369 | each learned clause uses up one of finitely many |
| Learning.UnknownBounded | fabko/compiler/backend/sat/solver_impl.cpp:316-369 | at most four to the number of variables clauses can be learned |
| Learning.ConflictLearned | fabko/compiler/backend/sat/solver_impl.cpp:330-346 | the whole conflict step above level zero |
| Vsids.MostActive | fabko/compiler/backend/sat/solver_impl.cpp:289-298 | the first free variable of highest activity, if any is free |
| Vsids.BumpedOnce | fabko/compiler/backend/sat/solver_impl.cpp:73-77 | exactly the clause's variables are bumped, once each |
| Vsids.UpdatedRow | fabko/compiler/backend/sat/solver_impl.cpp:59-85 | the whole update of one row, by inequalities |
| Vsids.ScalingKeepsOrder | fabko/compiler/backend/sat/solver_impl.cpp:66-84 | scaling never inverts two activities |
| Vsids.DecayLowers | fabko/compiler/backend/sat/solver_impl.cpp:79-84 | exactly when the decay lowers an activity: a positive one if the ratio is above one, a negative one if the quotient is at least one further from zero |
| Watcher.ClauseWatcher.constructor | fabko/compiler/backend/sat/solver.cpp:74-89 | the slots hold the first unassigned literal and the next after it, with none before or between; over distinct variables they agree with the full scan |
| Watcher.ClauseWatcher.Replace | fabko/compiler/backend/sat/solver.cpp:91-114 | throws exactly when it reads an empty first slot; otherwise the slot that held the variable takes the variable at the first unassigned position other than the other slot's, or is empty if there is none; agreement with the scan is kept whether the variable has just been assigned or not |
| Watcher.SelectWatches | fabko/compiler/backend/sat/solver.cpp:74-116 | a fresh watcher agrees with the full scan |
| Watcher.SelectTakesFirst | fabko/compiler/backend/sat/solver.cpp:74-89 | the first two members of the filtered clause are its first two unassigned positions |
| Watcher.RunWatcher | fabko/compiler/backend/sat/solver.cpp:74-116 | a watcher object through a run of assignments and replacements: throws exactly when the run breaks, and agrees with the scan at the end otherwise |
| Watcher.ReplacedUnassigned | fabko/compiler/backend/sat/solver.cpp:91-114 | replacing a variable that is still unassigned keeps the agreement |
| Watcher.ReplaceWatches | fabko/compiler/backend/sat/solver.cpp:91-114 | assigning then replacing keeps the agreement, except for the one call that throws |
| Watcher.RunWatches | fabko/compiler/backend/sat/solver.cpp:74-116 | over any run the slots agree with the scan at the end, or the run broke off with nothing left unassigned |
| Watcher.RunWatchesFrom | fabko/compiler/backend/sat/solver.cpp:74-116 | the same from any watcher that agrees with the scan |
| Watcher.SizeMatchesScan | fabko/compiler/backend/sat/solver_impl.cpp:231-264 | sizes 2, 1, 0 mean at least two, one and no unassigned literal |
| Watcher.HalfEmptyBreaks | fabko/compiler/backend/sat/solver.cpp:97-98 | a watcher left with its second slot alone breaks exactly when that variable is assigned |
| Watcher.RunBreaks | fabko/compiler/backend/sat/solver.cpp:97-98 | the breaking run on a clause of two literals |
| Watcher.RepeatedVariableWatchedTwice | fabko/compiler/backend/sat/solver.cpp:74-89 | a repeated variable is watched twice |
| Watcher.FalsifiedUnwatched | fabko/compiler/backend/sat/solver_impl.cpp:284 | the watcher of a clause learned while false is empty |
| Loading.IndexClauses | fabko/compiler/backend/sat/solver.cpp:42-64 | loads exactly when every clause is nonempty and declared, the first bad clause deciding the error; activities count occurrences |
| Loading.IndexClause | fabko/compiler/backend/sat/solver.cpp:46-57 | binds one clause to the rows of its variables; each activity rises by the number of positions that hold the variable |
| Loading.OccurrencesCount | fabko/compiler/backend/sat/solver.cpp:42-57 | the count of occurrences is the number of places in the clauses that hold the variable |
| Loading.FindVariable | fabko/compiler/backend/sat/solver.cpp:48-51 | the first row with the literal's variable, if there is one |
| Loading.IndexedEvaluates | fabko/compiler/backend/sat/solver.cpp:42-64 | the indexed table evaluates like the signed clauses under every assignment |
| Loading.MakeContext | fabko/compiler/backend/sat/solver.cpp:30-64 | a fresh valid context over the model's clauses exactly for a loadable model, each activity the number of places that hold the variable; otherwise the error of the first clause that is empty or names an undeclared variable |
| CnfFile.MakeModel | fabko/compiler/backend/sat/solver.cpp:118-182 | the clauses are the nonempty runs of numbers on the data lines, in line order, and the literals the strictly increasing list of exactly the variables used; accepted exactly when no header stops the reader and both counts fill, and then every header has the right words and counts that are not negative |
| CnfFile.ReadClause | fabko/compiler/backend/sat/solver.cpp:157-163 | the longest run of nonzero numbers at the start of the line, with their variables added |
| CnfFile.ClausesInOrder | fabko/compiler/backend/sat/solver.cpp:133-168 | the clauses of a file stand on increasing lines, and no other data line starts with a nonzero number |
| CnfFile.HeadersPassed | fabko/compiler/backend/sat/solver.cpp:138-155 | the reader only gets past headers with the right words and counts that are not negative |
| CnfFile.HeaderErrors | fabko/compiler/backend/sat/solver.cpp:138-155 | which error a header gives that is not refused as a second one |
| CnfFile.MostDeclared | fabko/compiler/backend/sat/solver.cpp:152-171 | the room for literals is the largest count of variables a header declares |
| CnfFile.CountCheck | fabko/compiler/backend/sat/solver.cpp:170-174 | exactly which declared counts a file passes with, for the last header and whatever the reader got past before it |
| CnfFile.HeaderRefused | fabko/compiler/backend/sat/solver.cpp:138-155 | a header is refused as a second one exactly after a clause or after a header that declares clauses, and then whatever follows |
| CnfFile.HeaderNeeded | fabko/compiler/backend/sat/solver.cpp:170-174 | without a header only a file without clauses is read |
| CnfFile.TooManyClausesAccepted | fabko/compiler/backend/sat/solver.cpp:173-174 | two clauses pass where one is declared |
| CnfFile.TwoHeadersAccepted | fabko/compiler/backend/sat/solver.cpp:138-141 | two headers pass when the first declares no clauses |
| Solver.Solver.Solve | fabko/compiler/backend/sat/solver.cpp:188-210 | if it returns: n results on a satisfiable model, none on an unsatisfiable one or for n below one, each solves the model and all are equal; it does not return only from a stuck search, and returns under the same condition as SolveSat |
| Solver.ModelLoads | fabko/compiler/backend/sat/solver.cpp:133-181 | what the reader produces, the constructor accepts |
| Solver.RunFile | fabko/compiler/backend/sat/cli.hh:38-45 | if it returns, an accepted file yields a satisfying result exactly when its clauses are satisfiable; it returns for every file but one without clauses, for which it never does, and perhaps one with more than sixteen variables |
| Sweeps.ScanMeaning | fabko/compiler/backend/sat/solver_impl.cpp:221-265 | idle, clash and implied mean settled, false and propagating |
| Sweeps.PropagationDeterministic | fabko/compiler/backend/sat/solver_impl.cpp:267-275 | propagation has one outcome |
| Sweeps.PropagationEnds | fabko/compiler/backend/sat/solver_impl.cpp:219-276 | propagation keeps the invariant and ends with a false clause or with every clause settled |
| Passes.SweepPasses | fabko/compiler/backend/sat/solver_impl.cpp:267-275 | what one pass does, said of the trail it leaves |
| Passes.PropagationPasses | fabko/compiler/backend/sat/solver_impl.cpp:267-275 | propagation is such passes one after the other |
| Sweeps.PropagationTerminates | fabko/compiler/backend/sat/solver_impl.cpp:267-275 | propagation from any state of a search ends |
| Sweeps.UndeterminedLeavesFree | fabko/compiler/backend/sat/solver_impl.cpp:219-276 | at level zero propagation leaves free a variable on which two satisfying assignments differ |
| Sweeps.StepDeterministic | fabko/compiler/backend/sat/solver_impl.cpp:330-367 | a turn has one outcome, activities and counters included |
| Sweeps.SearchDeterministic | fabko/compiler/backend/sat/solver_impl.cpp:316-369 | the whole search is determined by the state, activities, configuration and conflict counters it starts with |
| Sweeps.LeavesFreeWhen | fabko/compiler/backend/sat/solver_impl.cpp:319-328 | whether propagation leaves a variable free can be read off where it ends |
| Sweeps.DecidedFromZero | fabko/compiler/backend/sat/solver_impl.cpp:319-328 | a decision at level zero is undone by the next restart and leaves the same decision to make |
| Departures.JumpMissesAssertingLevel | fabko/compiler/backend/sat/solver_impl.cpp:113-191 | a conflict, its analysis, and a jump after which the learned clause has two open literals |
| Departures.RepetitionMissesFirstUip | fabko/compiler/backend/sat/solver_impl.cpp:118-178 | a conflict, its first implication point, and an analysis that stops at the decision instead |
| Departures.LearnsKnownLiterals | fabko/compiler/backend/sat/solver_impl.cpp:95-192 | a conflict whose learned clause has the literals of a clause in the table |
| Departures.LowRun | fabko/compiler/backend/sat/solver_impl.cpp:316-369 | three turns from a fresh context meet the first conflict, learn from it and jump |
| Departures.RepeatedRun | fabko/compiler/backend/sat/solver_impl.cpp:316-369 | two turns from a fresh context meet the second one |
| Departures.SameRun | fabko/compiler/backend/sat/solver_impl.cpp:316-369 | two turns from a fresh context meet the third one |
| Endless.EitherNeverReturns | fabko/compiler/backend/sat/solver_impl.cpp:316-369 | under threshold zero the search for (1 2) never returns |
| Endless.WrapNeverReturns | fabko/compiler/backend/sat/solver_impl.cpp:319-328 | a search whose positive threshold wraps around to zero and which then never returns |
| Thresholds.VanishesWhenEven | fabko/compiler/backend/sat/solver_impl.cpp:327 | the threshold reaches zero after some restarts if and only if it starts there or the multiplier is even |
| Thresholds.DefaultVanishes | fabko/compiler/backend/sat/solver_context.hh:79-80 | by default the field is zero exactly from the thirtieth restart on, which takes at least 12884901788 conflicts |
| Thresholds.OutlastsExactly | fabko/compiler/backend/sat/solver_context.hh:79-80 | the sum of the first 32 thresholds, or an odd multiplier, tells exactly how many conflicts the field outlasts |
| Thresholds.WaitedCounts | fabko/compiler/backend/sat/solver_context.hh:79-80 | the conflicts waited for are the sum of the thresholds so far |

## Left out

- SolverContext.Context.UpdateVsidsActivity: models the divisions over the reals and truncates; floating-point rounding and integer overflow are not modelled.
- Vsids.ScalingKeepsOrder: divides reals, where the source divides in floating point.
- Vsids.DecayLowers: the same.
- Watcher.ClauseWatcher.Replace: works on the assignment it is given; the solver itself never calls it, and `Watcher.RunWatcher` stands for the calls a solver would make.
- CnfFile.MakeModel: reads tokenised lines; opening files, character handling and numbers too large for 64 bits are not modelled, nor is memory exhaustion on huge declared counts.
- The 64-bit width of the conflict, restart and statistics counters, which are unbounded here.
- The release build, in which the assertions are switched off.
- Logging, the option parsing of the command line, compiler metadata of variables and clauses, and the `backtracks` counter, which nothing updates.
- `fil::soa`, a library that is not part of this model: its tables are sequences with positions as ids.
- FABL grammar, intermediate representation, the `sat_builder` stubs, agents and the data store.
