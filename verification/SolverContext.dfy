// The solver's mutable context (`solver_context`) and the search over it
// (`impl_details::solve_sat` and the functions it calls).
module SolverContext {
  import opened Basics
  import opened Cnf
  import opened Clauses
  import opened Search
  import opened Runs
  import opened Analysis
  import opened Learning
  import opened Reachability
  import opened Resolution
  import opened Sweeps
  import opened Passes
  import opened Thresholds
  import opened Watcher
  import opened Vsids

  datatype SatError = Unsatisfiable

  // What a call comes to; the source has loops that some inputs never leave.
  datatype Outcome<+T> = Returns(value: T) | NeverReturns

  datatype Statistics = Statistics(
    restarts: nat,
    conflicts: nat,
    propagations: nat,
    decisions: nat,
    learnedClause: nat,
    maxDecisionLevel: nat)

  // The clause is the signed clause with a variable row beside each literal.
  predicate Mirrors(c: Clause, m: seq<Literal>) {
    |c| == |m| && forall p :: 0 <= p < |c| ==> c[p].lit == m[p]
  }

  ghost predicate Represents(table: seq<Clause>, clauses: seq<seq<Literal>>) {
    |clauses| <= |table| && forall i :: 0 <= i < |clauses| ==> Mirrors(table[i], clauses[i])
  }

  // t continues s by propagations at the current level.
  ghost predicate Extends(s: State, t: State) {
    && InRange(s) && InRange(t)
    && t.vars == s.vars && t.clauses == s.clauses && t.cur == s.cur
    && |s.trail| <= |t.trail| && t.trail[..|s.trail|] == s.trail
    && (forall i :: |s.trail| <= i < |t.trail| ==> !IsDecisionAt(t, i))
    && (forall v :: 0 <= v < |s.vars| && s.assign[v] != NotAssigned ==>
         t.assign[v] == s.assign[v] && t.level[v] == s.level[v] && t.reason[v] == s.reason[v])
  }

  lemma ExtendsSelf(s: State)
    requires Inv(s)
    ensures Extends(s, s)
  {
  }

  lemma ExtendsStep(s: State, t: State, c: nat, p: nat)
    requires Extends(s, t) && Inv(t) && CanPropagate(t, c, p)
    ensures Extends(s, Propagate(t, c, p))
  {
    hide QuietBelow, LevelStep, Justified, TableWf, Tied;
    var t' := Propagate(t, c, p);
    assert t'.trail[..|s.trail|] == t.trail[..|s.trail|];
    forall i | |s.trail| <= i < |t'.trail| ensures !IsDecisionAt(t', i) {
      if i < |t.trail| { assert !IsDecisionAt(t, i) && t.trail[i] in t.trail; }
    }
  }

  lemma InvShape(s: State)
    requires Inv(s)
    ensures InRange(s) && TableWf(s)
  {
  }

  // Propagation loses no valuation that agreed with the old trail.
  lemma PropagationForced(s: State, t: State, tau: Valuation, i: nat)
    requires Graph(s) && Graph(t) && Extends(s, t) && SatisfiesTable(tau, s.clauses)
    requires forall j :: 0 <= j < |s.trail| ==> Agrees(s, tau, s.trail[j])
    requires i < |t.trail|
    ensures Agrees(t, tau, t.trail[i])
  {
    forall d | 0 <= d < |t.trail| && IsDecisionAt(t, d) ensures Agrees(t, tau, t.trail[d]) {
      assert t.trail[..|s.trail|][d] == s.trail[d];
      assert s.trail[d] in s.trail && Agrees(s, tau, s.trail[d]);
    }
    TrailForced(t, tau, |t.trail|, i);
  }

  // ---- Reading a solution off a full assignment ----

  function ReadOff(vars: seq<Literal>, assign: seq<Assignment>): (r: seq<Literal>)
    requires |vars| == |assign|
    ensures |r| == |vars|
    ensures forall i :: 0 <= i < |r| ==> r[i] == SignedAs(vars[i], assign[i])
  {
    seq(|vars|, i requires 0 <= i < |vars| => SignedAs(vars[i], assign[i]))
  }

  function SignedAs(l: Literal, a: Assignment): Literal {
    Literal(if a == On then l.Value() as int else -(l.Value() as int))
  }

  lemma ReadOffHolds(vars: seq<Literal>, assign: seq<Assignment>, b: Bound)
    requires VariablesWf(vars) && |vars| == |assign| && BoundWf(vars, b) && LitTrue(assign, b)
    ensures Holds(ValuationOf(ReadOff(vars, assign)), b.lit)
  {
    var r := ReadOff(vars, assign);
    var x := b.lit.Value() as int;
    if b.lit.IsOn() {
      assert r[b.id] == Literal(x);
    } else {
      forall i | 0 <= i < |r| ensures r[i] != Literal(x) {
        if i != b.id {
          assert vars[i].Value() != vars[b.id].Value();
        }
      }
    }
  }

  lemma ReadOffSolves(model: Model, s: State)
    requires TableWf(s) && s.vars == model.literals && |s.assign| == |s.vars| && Represents(s.clauses, model.clauses)
    requires forall i :: 0 <= i < |s.clauses| ==> ClauseSatisfied(s.assign, s.clauses[i])
    ensures Solves(model, ReadOff(s.vars, s.assign))
  {
    var r := ReadOff(s.vars, s.assign);
    forall i | 0 <= i < |model.clauses| ensures SatisfiesClause(ValuationOf(r), model.clauses[i]) {
      var c := s.clauses[i];
      assert ClauseSatisfied(s.assign, c) && Mirrors(c, model.clauses[i]);
      var p :| 0 <= p < |c| && LitTrue(s.assign, c[p]);
      ReadOffHolds(s.vars, s.assign, c[p]);
      assert Holds(ValuationOf(r), model.clauses[i][p]);
    }
  }

  // In a well-formed table, sharing the variable is sharing the row.
  lemma RowByValue(vars: seq<Literal>, b: Bound, v: nat)
    requires VariablesWf(vars) && BoundWf(vars, b) && v < |vars|
    ensures b.lit.SameVariable(vars[v]) <==> b.id == v
  {
  }

  lemma RowsInTable(s: State, c: Clause, rows: seq<nat>, pivot: nat)
    requires pivot < |s.vars| && forall v :: v in rows <==> v == pivot || CurRow(s, c, v)
    ensures forall i :: 0 <= i < |rows| ==> rows[i] < |s.vars|
    ensures forall v :: v in rows ==> v < |s.vars|
  {
    forall i | 0 <= i < |rows| ensures rows[i] < |s.vars| { assert rows[i] in rows; }
  }

  // A conflict with no decision in force refutes the model.
  lemma LevelZeroUnsat(model: Model, s: State, i: nat)
    requires Inv(s) && s.cur == 0 && FollowsFrom(s.clauses, model.clauses)
    requires i < |s.clauses| && Falsified(s.assign, s.clauses[i])
    ensures !Satisfiable(model.clauses)
  {
    forall tau ensures !Satisfies(tau, model.clauses) {
      LevelZeroConflict(s, i, tau);
    }
  }

  lemma SolvesMeansSatisfiable(model: Model, result: seq<Literal>)
    requires Solves(model, result)
    ensures Satisfiable(model.clauses)
  {
  }

  lemma NoVariables(s: State)
    requires TableWf(s)
    ensures s.vars == [] ==> s.clauses == []
  {
    assert s.clauses == [] || BoundWf(s.vars, s.clauses[0][0]);
  }

  lemma DecidesNext(s: State, t: State, u: State)
    requires Leads(s, t) && InRange(t) && AllSettled(t) && exists v: nat :: Free(t.assign, v) && u == Decide(t, v)
    ensures Leads(s, u)
  {
    LeadsNext(s, t, u);
  }

  lemma LearnsNext(s: State, t: State, u: State, i: nat)
    requires Leads(s, t) && t.cur >= 1 && i < |t.clauses| && Falsified(t.assign, t.clauses[i]) && LearnedFrom(t, u, i)
    ensures Leads(s, u)
  {
    LeadsNext(s, t, u);
  }

  datatype Progress = Progress(table: seq<Clause>, restartDue: bool, onTrail: nat)

  // How a turn of the main loop that finds nothing makes progress: a conflict uses up a
  // clause that could be learned, a restart is never due twice in a row, and otherwise the
  // trail grows.
  ghost predicate Advances(vars: seq<Literal>, before: Progress, after: Progress) {
    || |Unknown(vars, after.table)| < |Unknown(vars, before.table)|
    || (after.table == before.table && !after.restartDue && (before.restartDue || before.onTrail < after.onTrail))
  }

  // ---- The context ----

  class Context {
    const model: Model
    var config: Configuration
    var assignment: seq<Assignment>
    var level: seq<nat>
    var reason: seq<Option<nat>>
    var activity: seq<int>
    var clauses: seq<Clause>
    var watchers: seq<Watch>
    var trail: seq<nat>
    var conflictsSinceRestart: nat
    var currentLevel: nat
    var statistics: Statistics

    constructor (model: Model, table: seq<Clause>, activity: seq<int>, watchers: seq<Watch>)
      requires VariablesWf(model.literals) && ConfigurationWf(model.conf)
      requires |table| == |watchers| == |model.clauses| && |activity| == |model.literals|
      requires forall i :: 0 <= i < |table| ==> table[i] != [] && ClauseWf(model.literals, table[i])
      requires Represents(table, model.clauses) && FollowsFrom(table, model.clauses)
      requires forall i :: 0 <= i < |table| ==> watchers[i] == Select(seq(|model.literals|, _ => NotAssigned), table[i])
      ensures Valid() && this.model == model && View() == Fresh(model.literals, table) && this.activity == activity
      ensures assignment == seq(|model.literals|, _ => NotAssigned) && level == seq(|model.literals|, _ => 0)
      ensures reason == seq(|model.literals|, _ => None) && trail == [] && currentLevel == 0
      ensures config == model.conf && conflictsSinceRestart == 0 && statistics == Statistics(0, 0, 0, 0, 0, 0)
    {
      hide Inv, Unknown, TwoTo, FollowsFrom, Represents, ClauseWf, VariablesWf, Select, NewAmong;
      FreshInv(model.literals, table);
      UnknownBounded(model.literals, table);
      this.model := model;
      config := model.conf;
      assignment := seq(|model.literals|, _ => NotAssigned);
      level := seq(|model.literals|, _ => 0);
      reason := seq(|model.literals|, _ => None);
      this.activity := activity;
      clauses := table;
      this.watchers := watchers;
      trail := [];
      conflictsSinceRestart := 0;
      currentLevel := 0;
      statistics := Statistics(0, 0, 0, 0, 0, 0);
    }

    ghost function View(): State
      reads this`clauses, this`assignment, this`level, this`reason, this`trail, this`currentLevel
    {
      State(model.literals, clauses, assignment, level, reason, trail, currentLevel)
    }

    // What the next turn depends on.
    ghost function Snap(): Snapshot
      reads this
    {
      Snapshot(View(), activity, config, conflictsSinceRestart, statistics.conflicts)
    }

    // The original clauses' watchers were chosen with nothing assigned; a learned clause's
    // watcher was built while all of its literals were false and watches nothing.
    ghost predicate WatchersStale()
      reads this`clauses, this`watchers
    {
      && |watchers| == |clauses| && |model.clauses| <= |clauses|
      && (forall i :: 0 <= i < |model.clauses| ==>
           watchers[i] == Select(seq(|model.literals|, _ => NotAssigned), clauses[i]))
      && (forall i :: |model.clauses| <= i < |clauses| ==> watchers[i].Size() == 0)
    }

    ghost predicate TableSound()
      reads this`clauses, this`watchers
    {
      && Represents(clauses, model.clauses) && FollowsFrom(clauses, model.clauses)
      && LearnedApart(clauses, |model.clauses|) && WatchersStale()
    }

    // The parts of the context that stand beside the search state.
    ghost predicate Sound()
      reads this`clauses, this`watchers, this`activity, this`config, this`conflictsSinceRestart, this`statistics
    {
      && TableSound()
      && |activity| == |model.literals|
      && ConfigurationWf(config)
      && statistics.learnedClause + |model.clauses| == |clauses|
      && statistics.learnedClause + |Unknown(model.literals, clauses)| <= TwoTo(2 * |model.literals|)
      && Paced()
    }

    // The threshold is the configured one, multiplied at each restart so far, and each of
    // them waited for its conflicts.
    ghost predicate Paced()
      reads this`config, this`conflictsSinceRestart, this`statistics
    {
      && config == model.conf.(restartThreshold := ThresholdAfter(statistics.restarts))
      && WaitedFor(statistics.restarts) + conflictsSinceRestart <= statistics.conflicts
    }

    ghost function ThresholdAfter(restarts: nat): uint32 {
      Threshold(model.conf.restartThreshold, model.conf.restartMultiplier, restarts)
    }

    ghost function WaitedFor(restarts: nat): nat {
      Waited(model.conf.restartThreshold, model.conf.restartMultiplier, restarts)
    }

    ghost predicate Valid()
      reads this
    {
      Inv(View()) && Sound()
    }

    predicate IsClauseSatisfied(c: Clause)
      reads this
    {
      ClauseSatisfied(assignment, c)
    }

    // ---- Unit propagation ----

    // Here and below, `start` is the state in which propagation began.
    method PropagateClause(i: nat, ghost start: State) returns (r: Scan)
      requires Inv(View()) && i < |clauses| && Extends(start, View()) && Leads(start, View())
      modifies this`assignment, this`level, this`reason, this`trail
      ensures Inv(View()) && Extends(start, View()) && Leads(start, View())
      ensures r == old(ScanOf(assignment, clauses[i]))
      ensures r != Implied ==> View() == old(View())
      ensures r == Implied ==> Shaped(old(View())) && View() == Imply(old(View()), i)
      ensures r == Implied ==> MakesTrue(old(View()), View(), i)
      ensures r == Idle <==> old(Settled(assignment, clauses[i]))
      ensures r == Clash <==> old(Falsified(assignment, clauses[i]))
    {
      hide Inv, Extends, Leads;
      ghost var s := View();
      InvShape(s);
      ScanMeaning(s, i);
      var c := clauses[i];
      if IsClauseSatisfied(c) { return Idle; }
      var unassigned := UnassignedOf(assignment, c);
      if unassigned == [] { return Clash; }
      if |unassigned| != 1 { return Idle; }
      ghost var p := ImplyPropagates(s, i);
      PropagateKeeps(s, i, p);
      ExtendsStep(start, s, i, p);
      assert Propagates(s, Propagate(s, i, p));
      LeadsNext(start, s, Propagate(s, i, p));
      var b := unassigned[0];
      assignment := assignment[b.id := if b.lit.IsOn() then On else Off];
      level := level[b.id := currentLevel];
      reason := reason[b.id := Some(i)];
      trail := trail + [b.id];
      assert View() == Imply(s, i);
      ImplyMakesTrue(s, i);
      r := Implied;
    }

    // One sweep over the clause table; a conflict stops the rest of it from acting.
    method PropagationPass(ghost start: State) returns (conflict: Option<nat>, count: nat)
      requires Inv(View()) && Extends(start, View()) && Leads(start, View())
      modifies this`assignment, this`level, this`reason, this`trail
      ensures Inv(View()) && Extends(start, View()) && Leads(start, View())
      ensures Shaped(old(View())) && Swept(View(), conflict, count) == Sweep(old(View()), 0)
      ensures |trail| == |old(trail)| + count
      ensures Continues(old(View()), View()) && AssignAt(View(), |old(trail)|) == old(assignment)
      ensures PassOver(View(), 0, |old(trail)|, |trail|, conflict)
      ensures conflict.Some? ==> conflict.value < |clauses| && Falsified(assignment, clauses[conflict.value])
      ensures count == 0 ==> View() == old(View())
      ensures count == 0 && conflict.None? ==> AllSettled(View())
      ensures old(AllSettled(View())) ==> count == 0 && conflict.None?
    {
      hide Inv, Extends, Leads, ScanOf, Settled, Falsified, Imply, Continues, PassOver, AssignAt;
      conflict, count := None, 0;
      ghost var s := View();
      InvShape(s);
      SweepPasses(s, 0);
      PassStart(s, Sweep(s, 0).state);
      for i := 0 to |clauses|
        invariant Inv(View()) && Extends(start, View()) && Leads(start, View()) && Shaped(View())
        invariant |trail| == |old(trail)| + count
        invariant conflict.None? ==> Sweep(s, 0) == AddCount(Sweep(View(), i), count)
        invariant conflict.Some? ==> Sweep(s, 0) == Swept(View(), conflict, count)
        invariant conflict.Some? ==> conflict.value < |clauses| && Falsified(assignment, clauses[conflict.value])
        invariant count == 0 ==> View() == old(View())
        invariant count == 0 && conflict.None? ==> forall j :: 0 <= j < i ==> Settled(assignment, clauses[j])
        invariant old(AllSettled(View())) ==> count == 0 && conflict.None?
      {
        if conflict.None? {
          ScanMeaning(View(), i);
          var r := PropagateClause(i, start);
          InvShape(View());
          match r
          case Idle =>
          case Clash => conflict := Some(i);
          case Implied => count := count + 1;
        }
      }
    }

    // Sweeps until one adds nothing. Either some clause is false, or every clause is
    // satisfied or keeps two open literals.
    method UnitPropagation() returns (conflict: Option<nat>)
      requires Valid()
      modifies this`assignment, this`level, this`reason, this`trail, this`statistics
      ensures Valid() && Extends(old(View()), View()) && Leads(old(View()), View())
      ensures exists n :: PropagatesTo(old(View()), View(), conflict, n)
      ensures Continues(old(View()), View()) && AssignAt(View(), |old(trail)|) == old(assignment)
      ensures exists marks ::
        PassesOver(View(), marks, conflict) && marks[0] == |old(trail)| &&
        statistics.propagations == old(statistics).propagations + marks[|marks| - 2] - marks[0]
      ensures conflict.Some? ==> conflict.value < |clauses| && Falsified(assignment, clauses[conflict.value])
      ensures conflict.None? ==> AllSettled(View())
      ensures conflict.None? ==> statistics.propagations == old(statistics).propagations + |trail| - |old(trail)|
      ensures statistics == old(statistics).(propagations := statistics.propagations)
      ensures old(AllSettled(View())) ==> conflict.None? && View() == old(View()) && statistics == old(statistics)
      ensures |trail| >= |old(trail)|
    {
      hide Inv, Extends, Leads, AllSettled, Falsified, Sweep, Sweeping, AfterSweeps, PropagatesTo;
      hide TableSound, Unknown, TwoTo, Threshold, Waited, Continues, PassOver, PassesOver, AssignAt;
      ghost var start := View();
      InvShape(start);
      ExtendsSelf(start);
      LeadsSelf(start);
      ghost var n: nat := 0;
      var count;
      conflict, count := PropagationPass(start);
      SweepingStarts(start, View(), conflict, count);
      TrailFits(View());
      while count != 0
        invariant Inv(View()) && Extends(start, View()) && Leads(start, View()) && Shaped(start)
        invariant Sweeping(start, View(), conflict, count, n)
        invariant |old(trail)| <= |trail| == |AfterSweeps(start, n).trail| + count <= |model.literals|
        invariant statistics == old(statistics).(propagations := statistics.propagations)
        invariant statistics.propagations == old(statistics).propagations + |trail| - count - |old(trail)|
        decreases |model.literals| - |trail| + count
      {
        if conflict.Some? { break; }
        statistics := statistics.(propagations := statistics.propagations + count);
        ghost var before, swept := View(), count;
        conflict, count := PropagationPass(start);
        SweepingOn(start, before, swept, n, View(), conflict, count);
        n := n + 1;
        TrailFits(View());
      }
      SweepingEnds(start, View(), conflict, count, n);
      PropagationEnds(start, View(), conflict, n);
      EndsIdle(start, View(), conflict, count, n);
      ghost var marks := PropagationPasses(start, View(), conflict, n);
      PassStart(start, View());
      if AllSettled(start) {
        SettledPropagates(start);
        PropagationDeterministic(start, View(), conflict, n, start, None, 0);
      }
    }

    // ---- Conflict analysis ----

    // Adds the literals of an antecedent to the clause under construction, leaving out the
    // variable resolved on and every variable already present.
    method AddAntecedent(antecedent: Clause, pivot: nat, learned: Clause, rows: seq<nat>, backLevel: nat,
                         ghost s: State, ghost conflict: Clause)
      returns (learned': Clause, rows': seq<nat>, backLevel': nat)
      requires s == View() && TableWf(s) && InRange(s)
      requires AllFalse(s, learned) && KeepsLower(s, conflict, learned)
      requires forall q :: 0 <= q < |antecedent| && antecedent[q].id != pivot ==> FalseLit(s, antecedent[q])
      requires pivot < |s.vars| && forall q :: 0 <= q < |antecedent| ==> BoundWf(s.vars, antecedent[q])
      requires forall v :: v in rows <==> v == pivot || CurRow(s, learned, v)
      requires forall x :: x in learned ==> x.id != pivot
      requires JumpLevel(s, conflict, learned, backLevel)
      ensures forall x :: x in learned' <==> x in learned || (x in antecedent && x.id != pivot)
      ensures learned <= learned' && forall v :: Repeated(learned', v) <==> Repeated(learned, v)
      ensures forall v :: v in rows' <==> v == pivot || CurRow(s, learned', v)
      ensures forall v :: Twice(rows', v) <==> Twice(rows, v)
      ensures JumpLevel(s, conflict, learned', backLevel')
      ensures s.cur == 0 ==> backLevel' == backLevel
    {
      hide JumpLevel, CurRow, Twice, Repeated, KeepsLower, AllFalse;
      learned', rows', backLevel' := learned, rows, backLevel;
      for q := 0 to |antecedent|
        invariant AllFalse(s, learned') && KeepsLower(s, conflict, learned')
        invariant forall x :: x in learned' <==> x in learned || (x in antecedent[..q] && x.id != pivot)
        invariant learned <= learned' && forall v :: Repeated(learned', v) <==> Repeated(learned, v)
        invariant forall v :: v in rows' <==> v == pivot || CurRow(s, learned', v)
        invariant forall v :: Twice(rows', v) <==> Twice(rows, v)
        invariant JumpLevel(s, conflict, learned', backLevel')
        invariant s.cur == 0 ==> backLevel' == backLevel
      {
        var b := antecedent[q];
        assert antecedent[..q + 1] == antecedent[..q] + [b];
        RowByValue(s.vars, b, pivot);
        if b.lit.SameVariable(model.literals[pivot]) { continue; }
        PresentIsSame(s, learned', b);
        if HasVariable(learned', b.lit.Value()) { continue; }
        AddedJump(s, conflict, learned', b, backLevel');
        AddedFalse(s, conflict, learned', b);
        forall v: nat
          ensures CurRow(s, learned' + [b], v) <==> CurRow(s, learned', v) || (b.id == v && s.level[v] == s.cur)
        {
          AddedRow(s, learned', b, v);
          SingleRow(s, b, v);
        }
        NoRow(s, learned', b.id);
        forall v ensures Repeated(learned' + [b], v) <==> Repeated(learned', v) { RepeatedAfterPush(learned', b, v); }
        learned' := learned' + [b];
        if level[b.id] == currentLevel {
          forall v ensures Twice(rows' + [b.id], v) <==> Twice(rows', v) { TwiceAfterPush(rows', b.id, v); }
          rows' := rows' + [b.id];
        } else if level[b.id] > backLevel' {
          backLevel' := level[b.id];
        }
      }
      assert antecedent[..|antecedent|] == antecedent;
    }

    // Walks back to the latest propagated variable of the current level among `rows`. It
    // gives up at the first trail position without looking at it.
    method ScanTrail(from: nat, rows: seq<nat>, ghost conflict: Clause, ghost learned: Clause, ghost backLevel: nat)
      returns (i: nat)
      requires InConflict(View(), conflict) && from < |trail|
      requires Partial(View(), conflict, from, learned, rows, backLevel)
      ensures i <= from
      ensures i > 0 ==> reason[trail[i]].Some? && level[trail[i]] == currentLevel && trail[i] in rows
      ensures ScannedTo(View(), conflict, from, i)
      ensures currentLevel >= 1 && |rows| > 1 && DistinctVariables(conflict) ==> i > 0
    {
      ScanStart(View(), conflict, from);
      hide Partial, InConflict, ScannedTo;
      i := from;
      while i > 0
        invariant i <= from
        invariant ScannedTo(View(), conflict, from, i)
      {
        var v := trail[i];
        if reason[v].Some? && level[v] == currentLevel && v in rows { break; }
        ScanPassesAt(View(), conflict, from, learned, rows, backLevel, i);
        i := i - 1;
      }
      if i == 0 && currentLevel >= 1 && |rows| > 1 && DistinctVariables(conflict) {
        ScanCannotRunOut(View(), conflict, from, learned, rows, backLevel);
      }
    }

    // Replaces the variable at trail position i by the rest of its antecedent.
    method ResolveAt(i: nat, learned: Clause, rows: seq<nat>, backLevel: nat, ghost conflict: Clause)
      returns (learned': Clause, rows': seq<nat>, backLevel': nat)
      requires InConflict(View(), conflict) && InRange(View()) && TableWf(View())
      requires Resolvable(View(), conflict, i, learned, rows, backLevel)
      ensures Partial(View(), conflict, i - 1, learned', rows', backLevel')
    {
      hide InConflict, Inv, Partial, Twice;
      ghost var s := View();
      var v := trail[i];
      var base := WithoutVariable(learned, model.literals[v].Value());
      BeforeAdding(s, conflict, i, learned, rows, backLevel, base);
      var antecedent := clauses[reason[v].value];
      learned', rows', backLevel' := AddAntecedent(antecedent, v, base, rows, backLevel, s, conflict);
      RowsInTable(s, learned', rows', v);
      ghost var added := rows';
      rows' := RowsWithout(model.literals, rows', model.literals[v]);
      forall u | u in rows' ensures Twice(rows', u) <==> Twice(added, u) {
        RowsWithoutTwice(model.literals, added, model.literals[v], u);
      }
      AfterAdding(s, conflict, i, learned, rows, backLevel, base, learned', added, backLevel', rows');
    }

    // Resolves the conflict backwards along the trail until one variable of the current
    // level is left. Above level zero the clause, the jump level and the implication point
    // `uip` are as `Analysed` states; at level zero the caller gives up.
    method ResolveConflict(conflictId: nat) returns (learned: Clause, backLevel: nat, ghost uip: nat)
      requires Inv(View()) && conflictId < |clauses| && Falsified(assignment, clauses[conflictId])
      ensures Entails(clauses, learned) && Falsified(assignment, learned) && StrictlySorted(learned)
      ensures currentLevel == 0 ==> backLevel == 0
      ensures currentLevel >= 1 ==> InRange(View()) && Analysed(View(), clauses[conflictId], learned, backLevel, uip)
    {
      hide Inv, InConflict, Partial, Resolvable, Analysed, ScannedTo;
      ghost var s := View();
      var conflict := clauses[conflictId];
      ConflictHere(s, conflictId);
      var rows := RowsAtLevel(level, conflict, currentLevel);
      learned, backLevel := conflict, 0;
      PartialStart(s, conflict, rows);
      var trailIndex := |trail| - 1;
      ghost var t := trailIndex;
      while |rows| > 1
        invariant 0 <= trailIndex == t < |trail|
        invariant Partial(s, conflict, t, learned, rows, backLevel)
        decreases trailIndex
      {
        trailIndex := ScanTrail(trailIndex, rows, conflict, learned, backLevel);
        if trailIndex == 0 { break; }
        ScanStopsAt(s, conflict, t, learned, rows, backLevel, trailIndex);
        learned, rows, backLevel := ResolveAt(trailIndex, learned, rows, backLevel, conflict);
        trailIndex := trailIndex - 1;
        t := trailIndex;
      }
      LoopDoneSound(s, conflict, t, learned, rows, backLevel);
      uip := 0;
      if currentLevel >= 1 { uip := LoopDone(s, conflict, t, learned, rows, backLevel); }
      learned := UniqueByVariable(SortByVariable(learned));
    }

    // ---- The other steps ----

    // Pops the trail down to the given level.
    method Backtrack(target: nat)
      requires InRange(View())
      modifies this`assignment, this`reason, this`trail, this`currentLevel
      ensures View() == BackTo(old(View()), target) && currentLevel == target
    {
      while trail != []
        invariant InRange(View()) && currentLevel == old(currentLevel)
        invariant BackTo(View(), target) == BackTo(old(View()), target)
        decreases |trail|
      {
        var v := trail[|trail| - 1];
        if level[v] <= target { break; }
        assert BackTo(View(), target) == BackTo(Pop(View()), target);
        assignment := assignment[v := NotAssigned];
        reason := reason[v := None];
        trail := trail[..|trail| - 1];
      }
      currentLevel := target;
    }

    method LearnAdditionalClause(c: Clause)
      modifies this`clauses, this`watchers, this`statistics
      ensures c == [] ==> View() == old(View()) && watchers == old(watchers) && statistics == old(statistics)
      ensures c != [] ==> clauses == old(clauses) + [c]
      ensures c != [] ==> View() == Learn(old(View()), c) && watchers == old(watchers) + [Select(assignment, c)]
      ensures c != [] ==> statistics == old(statistics).(learnedClause := old(statistics).learnedClause + 1)
    {
      if c == [] { return; }
      clauses := clauses + [c];
      watchers := watchers + [Select(assignment, c)];
      statistics := statistics.(learnedClause := statistics.learnedClause + 1);
    }

    method UpdateVsidsActivity(c: Clause)
      requires ConfigurationWf(config) && forall p :: 0 <= p < |c| ==> c[p].id < |activity|
      modifies this`activity
      ensures activity == Updated(old(activity), c, config, statistics.conflicts) && |activity| == |old(activity)|
      ensures forall v :: 0 <= v < |activity| ==>
        RowUpdated(old(activity), activity, c, config, statistics.conflicts, v)
    {
      hide RowUpdated;
      forall v | 0 <= v < |activity|
        ensures RowUpdated(activity, Updated(activity, c, config, statistics.conflicts), c, config,
                           statistics.conflicts, v)
      {
        UpdatedRow(activity, c, config, statistics.conflicts, v);
      }
      if NearOverflow(activity, c, config.vsidsIncrement) {
        ScaleActivities(NORMALIZATION_FACTOR);
      }
      ghost var normalized := activity;
      for p := 0 to |c|
        invariant |activity| == |normalized| == |old(activity)|
        invariant activity == Bumped(normalized, c[..p], config.vsidsIncrement)
      {
        assert c[..p + 1][..p] == c[..p];
        var v := c[p].id;
        activity := activity[v := activity[v] + config.vsidsIncrement];
      }
      assert c[..|c|] == c;
      if statistics.conflicts % config.decayInterval == 0 {
        ScaleActivities(config.vsidsDecayRatio);
      }
    }

    method ScaleActivities(ratio: real)
      requires ratio != 0.0
      modifies this`activity
      ensures activity == ScaledAll(old(activity), ratio)
      ensures forall v :: 0 <= v < |activity| ==> Truncates(old(activity)[v], ratio, activity[v])
    {
      for v := 0 to |activity|
        invariant |activity| == |old(activity)|
        invariant forall u :: 0 <= u < v ==> activity[u] == Scaled(old(activity)[u], ratio)
        invariant forall u :: v <= u < |activity| ==> activity[u] == old(activity)[u]
      {
        activity := activity[v := Scaled(activity[v], ratio)];
      }
      forall v | 0 <= v < |activity| ensures Truncates(old(activity)[v], ratio, activity[v]) {
        ScaledTruncates(old(activity)[v], ratio);
      }
    }

    // Opens a level with the most active free variable, set to on.
    method MakeDecision() returns (decided: bool)
      requires Valid() && AllSettled(View())
      modifies this`assignment, this`level, this`trail, this`currentLevel, this`statistics
      ensures Valid()
      ensures decided <==> exists v: nat :: Free(old(assignment), v)
      ensures !decided ==> View() == old(View()) && statistics == old(statistics)
      ensures decided ==>
        exists v: nat :: FirstMostActive(old(assignment), activity, v) && View() == Decide(old(View()), v)
      ensures decided ==> Shaped(old(View())) && exists v: nat ::
        FirstMostActive(old(assignment), activity, v)
        && assignment == old(assignment)[v := On]
        && level == old(level)[v := currentLevel]
        && trail == old(trail) + [v]
      ensures decided ==> currentLevel == old(currentLevel) + 1
      ensures decided ==> |trail| == |old(trail)| + 1 && statistics.decisions == old(statistics).decisions + 1
      ensures statistics ==
        old(statistics).(decisions := statistics.decisions, maxDecisionLevel := statistics.maxDecisionLevel)
      ensures decided ==>
        && statistics.maxDecisionLevel >= currentLevel
        && statistics.maxDecisionLevel >= old(statistics).maxDecisionLevel
        && (statistics.maxDecisionLevel == currentLevel ||
            statistics.maxDecisionLevel == old(statistics).maxDecisionLevel)
    {
      hide Inv, AllSettled, TableSound, Unknown, TwoTo, Threshold, Waited;
      ghost var s := View();
      InvShape(s);
      var best := MostActive(assignment, activity, |model.literals|);
      if best.None? {
        return false;
      }
      var v := best.value;
      DecideKeeps(s, v);
      currentLevel := currentLevel + 1;
      statistics := statistics.(
        decisions := statistics.decisions + 1,
        maxDecisionLevel :=
          if currentLevel > statistics.maxDecisionLevel then currentLevel else statistics.maxDecisionLevel);
      level := level[v := currentLevel];
      assignment := assignment[v := On];
      trail := trail + [v];
      assert View() == Decide(s, v);
      decided := true;
    }

    // ---- The main loop ----

    // After enough conflicts, back to level zero with the threshold multiplied.
    method Restart()
      requires Valid() && conflictsSinceRestart >= config.restartThreshold
      modifies this`assignment, this`reason, this`trail, this`currentLevel
      modifies this`config, this`conflictsSinceRestart, this`statistics
      ensures Valid() && View() == BackTo(old(View()), 0)
      ensures conflictsSinceRestart == 0 && currentLevel == 0
      ensures config == Restarted(old(config))
      ensures config == old(config).(restartThreshold := config.restartThreshold)
      ensures config.restartThreshold == old(config).restartThreshold * old(config).restartMultiplier % 0x1_0000_0000
      ensures statistics == old(statistics).(restarts := old(statistics).restarts + 1)
    {
      hide Inv, BackTo, TableWf, TableSound, Unknown, TwoTo;
      ghost var s := View();
      InvShape(s);
      conflictsSinceRestart := 0;
      statistics := statistics.(restarts := statistics.restarts + 1);
      RestartKeeps(s);
      Backtrack(0);
      config := Restarted(config);
    }

    method LearnAndJump(learned: Clause, backLevel: nat)
      requires Valid() && learned != [] && Falsified(assignment, learned) && Entails(clauses, learned)
      requires InRange(Learn(View(), learned)) && Inv(BackTo(Learn(View(), learned), backLevel))
      requires BackTo(Learn(View(), learned), backLevel).clauses == clauses + [learned]
      requires |Unknown(model.literals, clauses + [learned])| < |Unknown(model.literals, clauses)|
      requires NewAmong(clauses, learned)
      requires forall p :: 0 <= p < |learned| ==> learned[p].id < |model.literals|
      modifies this`clauses, this`watchers, this`statistics, this`activity
      modifies this`assignment, this`reason, this`trail, this`currentLevel
      ensures Valid()
      ensures View() == BackTo(Learn(old(View()), learned), backLevel)
      ensures activity == Updated(old(activity), learned, config, statistics.conflicts)
      ensures statistics == old(statistics).(learnedClause := old(statistics).learnedClause + 1)
    {
      hide Inv, BackTo, Updated, Entails, FollowsFrom, Unknown, TwoTo, Threshold, Waited, NewAmong, LearnedApart;
      FalsifiedUnwatched(assignment, learned);
      LearnFollows(clauses, learned, model.clauses);
      ApartGrows(clauses, learned, |model.clauses|);
      LearnAdditionalClause(learned);
      Backtrack(backLevel);
      UpdateVsidsActivity(learned);
    }

    // Analyses a conflict, then learns and jumps back, or finds the model unsatisfiable.
    method HandleConflict(conflict: nat) returns (unsat: bool)
      requires Valid() && conflict < |clauses| && Falsified(assignment, clauses[conflict])
      modifies this
      ensures Valid()
      ensures unsat <==> old(currentLevel) == 0
      ensures unsat ==> !Satisfiable(model.clauses) && View() == old(View()) && activity == old(activity)
      ensures !unsat ==> LearnedFrom(old(View()), View(), conflict) && currentLevel < old(currentLevel)
      ensures !unsat ==> |Unknown(model.literals, clauses)| < |Unknown(model.literals, old(clauses))|
      ensures !unsat ==> ActivityBumped(old(activity), activity, clauses[|old(clauses)|], config, statistics.conflicts)
      ensures Handles(old(Snap()), old(View()), conflict, Snap())
      ensures conflictsSinceRestart == old(conflictsSinceRestart) + 1 && config == old(config)
      ensures statistics == old(statistics).(
        conflicts := old(statistics).conflicts + 1,
        learnedClause := old(statistics).learnedClause + if unsat then 0 else 1)
    {
      hide Inv, Analysed, Entails, FollowsFrom, Falsified, TableWf, LearnedFrom, Unknown, BackTo, Represents;
      assert FollowsFrom(clauses, model.clauses);
      hide StrictlySorted, TwoTo, Threshold, Waited, NewAmong, Updated, TableSound, Satisfiable;
      ghost var s := View();
      InvShape(s);
      conflictsSinceRestart := conflictsSinceRestart + 1;
      statistics := statistics.(conflicts := statistics.conflicts + 1);
      var learned, backLevel, uip := ResolveConflict(conflict);
      if currentLevel == 0 && backLevel == 0 {
        LevelZeroUnsat(model, s, conflict);
        return true;
      }
      ConflictLearned(s, conflict, learned, backLevel, uip);
      if learned == [] { assert false; } // the source would give up here; it never happens
      LearnAndJump(learned, backLevel);
      unsat := false;
    }

    // Every variable is assigned and every clause is satisfied.
    ghost predicate Complete()
      reads this
    {
      AllSettled(View()) && forall v: nat :: !Free(assignment, v)
    }

    // A solution stands, and the next turn of the main loop will not undo it.
    ghost predicate Finished()
      reads this
    {
      && model.literals != [] && Complete()
      && (conflictsSinceRestart < config.restartThreshold || (config.restartThreshold == 0 && currentLevel == 0))
    }

    // The main loop goes round for ever: there is no variable to put into a solution, or
    // each turn restarts and repeats the first decision.
    ghost predicate Stuck()
      reads this
    {
      model.literals == [] || (config.restartThreshold == 0 && Bare(View()))
    }

    // The threshold can only vanish by wrapping around: never with an odd multiplier, and
    // with the default configuration after more than twelve thousand million conflicts.
    lemma ThresholdVanished()
      requires Valid() && config.restartThreshold == 0
      ensures model.conf.restartThreshold == 0 || model.conf.restartMultiplier % 2 == 0
      ensures model.conf.restartThreshold == 100 && model.conf.restartMultiplier == 2 ==>
        statistics.restarts >= 30 && statistics.conflicts >= 12884901788
    {
      hide Inv, TableSound, Threshold, Waited;
      var start, multiplier := model.conf.restartThreshold, model.conf.restartMultiplier;
      assert Threshold(start, multiplier, statistics.restarts) == 0;
      VanishesWhenEven(start, multiplier);
      DefaultVanishes(statistics.restarts);
    }

    ghost predicate ReadsOff(result: seq<Literal>)
      reads this`assignment
    {
      && |result| == |assignment| == |model.literals|
      && forall i :: 0 <= i < |result| ==>
           var x := model.literals[i].Value() as int; result[i] == Literal(if assignment[i] == On then x else -x)
    }

    lemma ReadsOnce(a: seq<Literal>, b: seq<Literal>)
      requires ReadsOff(a) && ReadsOff(b)
      ensures a == b
    {
    }

    predicate RestartDue()
      reads this`conflictsSinceRestart, this`config
    {
      conflictsSinceRestart >= config.restartThreshold
    }

    ghost function Measure(): Progress
      reads this`clauses, this`conflictsSinceRestart, this`config, this`trail
    {
      Progress(clauses, RestartDue(), |trail|)
    }

    // Propagation found no conflict: the next decision, or the solution when every
    // variable is assigned, because every clause is then satisfied.
    method DecideOrFinish() returns (solution: seq<Literal>)
      requires Valid() && AllSettled(View())
      modifies this`assignment, this`level, this`trail, this`currentLevel, this`statistics
      ensures Valid() && Leads(old(View()), View())
      ensures statistics ==
        old(statistics).(decisions := statistics.decisions, maxDecisionLevel := statistics.maxDecisionLevel)
      ensures solution != [] ==> Solves(model, solution) && Complete() && ReadsOff(solution) && View() == old(View())
      ensures (exists v: nat :: Free(old(assignment), v)) ==>
        solution == [] && |trail| > |old(trail)| &&
        exists v: nat :: FirstMostActive(old(assignment), activity, v) && DecidesTo(old(View()), v, View())
      ensures (forall v: nat :: !Free(old(assignment), v)) ==>
        View() == old(View()) && statistics == old(statistics) && Complete() && ReadsOff(solution)
    {
      hide Inv, AllSettled, Represents, FollowsFrom, Leads, Solves, Paced, Unknown, TwoTo;
      ghost var s := View();
      LeadsSelf(s);
      InvShape(s);
      solution := [];
      var decided := MakeDecision();
      if decided {
        DecidesNext(s, s, View());
        return;
      }
      FullIsSatisfied(s);
      if forall i :: 0 <= i < |clauses| ==> IsClauseSatisfied(clauses[i]) {
        ReadOffSolves(model, s);
        solution := ReadOff(model.literals, assignment);
      }
    }

    // A turn of the main loop after any restart: propagation, and then the lesson of a
    // conflict or the next decision.
    method Step() returns (solution: seq<Literal>, unsat: bool)
      requires Valid()
      modifies this
      ensures Valid() && Leads(old(View()), View()) && Stepped(old(Snap()), Snap())
      ensures config == old(config) && statistics.restarts == old(statistics).restarts
      ensures unsat ==> solution == [] && currentLevel == 0 && !Satisfiable(model.clauses)
      ensures solution != [] ==>
        Solves(model, solution) && Complete() && ReadsOff(solution)
      ensures solution != [] ==> clauses == old(clauses) && currentLevel == old(currentLevel)
      ensures old(Complete()) ==> !unsat && ReadsOff(solution)
      ensures old(Complete()) ==> View() == old(View()) && watchers == old(watchers) && statistics == old(statistics)
      ensures model.literals == [] ==> !unsat && solution == []
      ensures !unsat && clauses == old(clauses) ==>
        activity == old(activity) && conflictsSinceRestart == old(conflictsSinceRestart)
      ensures !unsat && model.literals != [] && solution == [] && clauses == old(clauses) ==> |trail| > |old(trail)|
      ensures clauses == old(clauses) || |Unknown(model.literals, clauses)| < |Unknown(model.literals, old(clauses))|
      ensures !unsat ==> Unlearned() == old(Unlearned())
      ensures old(currentLevel) == 0 && model.literals != [] ==>
        (!unsat && solution == [] <==> LeavesFree(old(View()))) && (!unsat && solution == [] ==> Bare(View()))
    {
      hide Inv, AllSettled, Extends, LearnedFrom, Unknown, BackTo, Falsified, Leads, AfterSweeps;
      hide ActivityBumped, Solves, Satisfiable, VariablesWf, PropagatesTo, Stepped, LeavesFree, Bare;
      hide FirstMostActive, DecidesTo, Continues, PassesOver, AssignAt, Handles;
      hide Sound, ReadOff;
      ghost var a := Snap();
      ghost var s := a.state;
      LeadsSelf(s);
      solution := [];
      var conflict := UnitPropagation();
      ghost var u := View();
      ghost var n :| PropagatesTo(s, u, conflict, n);
      LeavesFreeWhen(s, u, conflict, n);
      InvShape(u);
      NoVariables(u);
      if conflict.Some? {
        unsat := HandleConflict(conflict.value);
        if !unsat { LearnsNext(s, u, View(), conflict.value); }
        ConflictSteps(a, a.(state := u), Snap(), conflict.value, n);
        return;
      }
      unsat := false;
      solution := DecideOrFinish();
      LeadsOn(s, u, View());
      if exists v: nat :: Free(u.assign, v) {
        DecisionSteps(a, Snap(), u, n);
      } else {
        EndSteps(a, Snap(), n);
      }
    }

    // The threshold is zero, or the next turn restarts and makes it zero.
    predicate Vanishing()
      reads this`conflictsSinceRestart, this`config
    {
      RestartDue() && Restarted(config).restartThreshold == 0
    }

    // The state after a due restart.
    ghost function Restarting(): State
      requires InRange(View())
      reads this
    {
      if RestartDue() then BackTo(View(), 0) else View()
    }

    ghost function Unlearned(): int
      reads this`statistics
    {
      statistics.conflicts - statistics.learnedClause
    }

    // One turn of the main loop.
    method Turn() returns (solution: seq<Literal>, unsat: bool)
      requires Valid()
      modifies this
      ensures Valid() && Leads(old(View()), View())
      ensures Turned(old(Snap()), Snap())
      ensures config == if old(RestartDue()) then Restarted(old(config)) else old(config)
      ensures statistics.restarts ==
        old(statistics).restarts + (if old(conflictsSinceRestart < config.restartThreshold) then 0 else 1)
      ensures !unsat ==> Unlearned() == old(Unlearned())
      ensures !unsat && clauses == old(clauses) ==> activity == old(activity)
      ensures !unsat && clauses == old(clauses) ==>
        conflictsSinceRestart == if old(RestartDue()) then 0 else old(conflictsSinceRestart)
      ensures unsat ==> solution == [] && currentLevel == 0 && !Satisfiable(model.clauses)
      ensures solution != [] ==> Solves(model, solution) && Finished() && ReadsOff(solution)
      ensures old(Finished()) ==> !unsat && Finished() && ReadsOff(solution)
      ensures old(Finished()) ==> View() == old(View()) && watchers == old(watchers) && config == old(config)
      ensures old(Finished() && !RestartDue()) ==>
        statistics == old(statistics) && conflictsSinceRestart == old(conflictsSinceRestart)
      ensures old(Stuck()) ==> Stuck() && !unsat && solution == []
      ensures old(Vanishing()) && model.literals != [] ==>
        (!unsat && solution == [] <==> LeavesFree(old(Restarting()))) && (!unsat && solution == [] ==> Stuck())
      ensures !unsat && solution == [] && model.literals != [] && config.restartThreshold >= 1 ==>
        Advances(model.literals, old(Measure()), Measure())
    {
      hide Inv, AllSettled, Unknown, BackTo, Leads;
      hide Solves, Satisfiable, VariablesWf, Stepped, LeavesFree, Sound, ReadOff;
      ghost var s := View();
      InvShape(s);
      LeadsSelf(s);
      if s.cur == 0 { BackToZeroStays(s); }
      if RestartDue() {
        Restart();
        assert Restarts(s, View());
        LeadsNext(s, s, View());
        if Bare(s) { BareLeavesFree(s); }
      }
      ghost var r := View();
      solution, unsat := Step();
      LeadsOn(s, r, View());
      InvShape(View());
    }

    // A stuck search has waited for more conflicts than can teach a clause.
    lemma StuckTakesLong()
      requires Valid() && Stuck() && model.literals != []
      ensures !Outlives(Learnable() + Unlearned())
    {
      hide Inv, TableSound, Threshold, Waited, Unknown, TwoTo, Bare;
      ThresholdVanished();
      var start, multiplier := model.conf.restartThreshold, model.conf.restartMultiplier;
      WaitedSettles(start, multiplier, statistics.restarts);
      OutlastsExactly(start, multiplier, Learnable() + Unlearned());
    }

    // The configured threshold is still positive after so many conflicts.
    predicate Outlives(conflicts: int) {
      Outlasts(model.conf.restartThreshold, model.conf.restartMultiplier, conflicts)
    }

    // A bound on the clauses there are to learn.
    function Learnable(): nat { TwoTo(2 * |model.literals|) }

    // Once the threshold is zero, only what level zero decides is ever decided.
    lemma UndeterminedKeepsGoing()
      requires Valid() && InRange(View()) && Vanishing() && Undetermined(model)
      ensures LeavesFree(Restarting())
    {
      hide Inv, BackTo, Satisfies, LeavesFree;
      var tau, tau', v: nat :| Satisfies(tau, model.clauses) && Satisfies(tau', model.clauses) && v < |model.literals|
        && tau(model.literals[v].Value()) != tau'(model.literals[v].Value());
      RestartKeeps(View());
      BackToLevel(View(), 0);
      UndeterminedLeavesFree(Restarting(), model.clauses, tau, tau', v);
    }

    // The search: a satisfying result, or the news that there is none. The test for a loop
    // that is stuck is the model's own: the source goes round for ever.
    method SolveSat() returns (r: Outcome<Result<seq<Literal>, SatError>>)
      requires Valid()
      modifies this
      ensures Valid() && Leads(old(View()), View()) && Searches(old(Snap()), Snap())
      ensures r.Returns? ==> (r.value.Ok? <==> Satisfiable(model.clauses))
      ensures r.Returns? && r.value.Ok? ==> Solves(model, r.value.value) && Finished() && ReadsOff(r.value.value)
      ensures r.NeverReturns? ==> Stuck() && Unlearned() == old(Unlearned())
      ensures old(Stuck()) ==> r.NeverReturns?
      ensures model.literals != [] && Outlives(Learnable() + old(Unlearned())) ==> r.Returns?
      ensures old(Vanishing()) && model.literals != [] ==> (r.NeverReturns? <==> LeavesFree(old(Restarting())))
      ensures old(Vanishing()) && Undetermined(model) ==> r.NeverReturns?
      ensures old(Finished()) ==> r.Returns? && r.value.Ok? && View() == old(View())
      ensures old(Finished()) ==> activity == old(activity) && watchers == old(watchers) && config == old(config)
      ensures old(Finished() && !RestartDue()) ==>
        statistics == old(statistics) && conflictsSinceRestart == old(conflictsSinceRestart)
    {
      hide Inv, Solves, AllSettled, Unknown, ReadOff, Leads, LeavesFree, Turned, BackTo, Sound, Bare;
      hide Searches, Outlives, Satisfies, TwoTo;
      InvShape(View());
      LeadsSelf(View());
      SearchesSelf(Snap());
      if Vanishing() && Undetermined(model) { UndeterminedKeepsGoing(); }
      var solution: seq<Literal> := [];
      ghost var turns := 0;
      while solution == []
        invariant Valid() && Leads(old(View()), View()) && Searches(old(Snap()), Snap())
        invariant Unlearned() == old(Unlearned())
        invariant solution != [] ==> Solves(model, solution) && Finished() && ReadsOff(solution)
        invariant old(Stuck()) ==> Stuck() && solution == []
        invariant old(Finished()) ==> Finished() && View() == old(View())
        invariant old(Finished()) ==> activity == old(activity) && watchers == old(watchers) && config == old(config)
        invariant old(Finished() && !RestartDue()) ==>
          statistics == old(statistics) && conflictsSinceRestart == old(conflictsSinceRestart)
        invariant InRange(View())
        invariant old(Vanishing()) && model.literals != [] ==>
          if turns == 0 then solution == [] && Vanishing() && Restarting() == old(Restarting())
          else solution != [] && !LeavesFree(old(Restarting()))
        decreases if solution == [] then 1 else 0,
          if config.restartThreshold == 0 then 0 else 1,
          |Unknown(model.literals, clauses)|,
          if RestartDue() then 1 else 0,
          |model.literals| - |trail|
      {
        var unsat;
        TrailFits(View());
        ghost var before := Snap();
        solution, unsat := Turn();
        turns := turns + 1;
        LeadsOn(old(View()), before.state, View());
        SearchesOn(old(Snap()), before, Snap());
        if unsat { return Returns(Err(Unsatisfiable)); }
        if solution == [] && (config.restartThreshold == 0 || model.literals == []) {
          if model.literals != [] { StuckTakesLong(); }
          return NeverReturns;
        }
        InvShape(View());
        TrailFits(View());
      }
      SolvesMeansSatisfiable(model, solution);
      return Returns(Ok(solution));
    }
  }
}
