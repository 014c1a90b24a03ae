// The order in which the solver propagates and what one turn of its main loop does, as
// functions and relations on states: the outcome is determined by the state and the
// activities.
module Sweeps {
  import opened Basics
  import opened Cnf
  import opened Clauses
  import opened Search
  import opened Runs
  import opened Learning
  import opened Reachability
  import opened Vsids

  // ---- Looking at one clause ----

  // Left alone, false, or unit.
  datatype Scan = Idle | Clash | Implied

  function ScanOf(assign: seq<Assignment>, c: Clause): Scan {
    var free := UnassignedOf(assign, c);
    if ClauseSatisfied(assign, c) then Idle
    else if free == [] then Clash
    else if |free| == 1 then Implied
    else Idle
  }

  predicate Shaped(s: State) { |s.assign| == |s.level| == |s.reason| }

  // Assigns the one free literal of clause i, with the clause as its reason.
  function Imply(s: State, i: nat): (t: State)
    requires Shaped(s) && i < |s.clauses| && ScanOf(s.assign, s.clauses[i]) == Implied
    ensures Shaped(t) && t.vars == s.vars && t.clauses == s.clauses && t.cur == s.cur
    ensures |t.trail| == |s.trail| + 1
  {
    PropagateLit(s, i, UnassignedOf(s.assign, s.clauses[i])[0])
  }

  // Of a clause that is not satisfied, the literals with an assigned variable are false.
  lemma AssignedIsFalse(vars: seq<Literal>, assign: seq<Assignment>, c: Clause)
    requires ClauseWf(vars, c) && |assign| == |vars| && !ClauseSatisfied(assign, c)
    ensures forall p :: 0 <= p < |c| ==> Free(assign, c[p].id) || LitFalse(assign, c[p])
  {
    forall p | 0 <= p < |c| ensures Free(assign, c[p].id) || LitFalse(assign, c[p]) {
      assert !LitTrue(assign, c[p]) && BoundWf(vars, c[p]);
    }
  }

  // What each outcome says about the clause.
  lemma ScanMeaning(s: State, i: nat)
    requires Inv(s) && i < |s.clauses|
    ensures ScanOf(s.assign, s.clauses[i]) == Idle <==> Settled(s.assign, s.clauses[i])
    ensures ScanOf(s.assign, s.clauses[i]) == Clash <==> Falsified(s.assign, s.clauses[i])
    ensures ScanOf(s.assign, s.clauses[i]) == Implied <==> exists p :: CanPropagate(s, i, p)
  {
    var c := s.clauses[i];
    NoneUnassigned(s.assign, c);
    SeveralUnassigned(s.assign, c);
    if ClauseSatisfied(s.assign, c) {
      SatisfiedIsIdle(s, i);
    } else {
      AssignedIsFalse(s.vars, s.assign, c);
      if |UnassignedOf(s.assign, c)| == 1 {
        var p := OneUnassigned(s.assign, c);
        assert CanPropagate(s, i, p);
      }
    }
  }

  lemma SatisfiedIsIdle(s: State, i: nat)
    requires Inv(s) && i < |s.clauses| && ClauseSatisfied(s.assign, s.clauses[i])
    ensures !Falsified(s.assign, s.clauses[i]) && forall p :: !CanPropagate(s, i, p)
  {
  }

  lemma ImplyPropagates(s: State, i: nat) returns (p: nat)
    requires Inv(s) && Shaped(s) && i < |s.clauses| && ScanOf(s.assign, s.clauses[i]) == Implied
    ensures CanPropagate(s, i, p) && Imply(s, i) == Propagate(s, i, p)
  {
    p := OneUnassigned(s.assign, s.clauses[i]);
    AssignedIsFalse(s.vars, s.assign, s.clauses[i]);
  }

  // t is s with the one open literal of clause i, whose others are false, made true at the
  // current level, with the clause as its reason.
  ghost predicate MakesTrue(s: State, t: State, i: nat) {
    && Shaped(s) && i < |s.clauses| && t.vars == s.vars && t.clauses == s.clauses && t.cur == s.cur
    && exists p :: 0 <= p < |s.clauses[i]| && MakesLitTrue(s, t, i, p)
  }

  ghost predicate MakesLitTrue(s: State, t: State, i: nat, p: nat)
    requires Shaped(s) && i < |s.clauses| && p < |s.clauses[i]|
  {
    var c := s.clauses[i];
    var v := c[p].id;
    && v < |s.assign| && s.assign[v] == NotAssigned
    && (forall q :: 0 <= q < |c| && q != p ==> LitFalse(s.assign, c[q]))
    && t.assign == s.assign[v := if c[p].lit.raw > 0 then On else Off]
    && t.level == s.level[v := s.cur] && t.reason == s.reason[v := Some(i)] && t.trail == s.trail + [v]
  }

  lemma ImplyMakesTrue(s: State, i: nat)
    requires Inv(s) && Shaped(s) && i < |s.clauses| && ScanOf(s.assign, s.clauses[i]) == Implied
    ensures MakesTrue(s, Imply(s, i), i)
  {
    var p := ImplyPropagates(s, i);
    assert MakesLitTrue(s, Imply(s, i), i, p);
  }

  // ---- Sweeping the table ----

  datatype Swept = Swept(state: State, conflict: Option<nat>, count: nat)

  // One pass from clause i on: each unit clause is propagated as it is met, and the first
  // false one ends the pass.
  function Sweep(s: State, i: nat): (r: Swept)
    requires Shaped(s)
    ensures Shaped(r.state) && r.state.vars == s.vars && r.state.clauses == s.clauses && r.state.cur == s.cur
    decreases |s.clauses| - i
  {
    if i >= |s.clauses| then Swept(s, None, 0)
    else match ScanOf(s.assign, s.clauses[i])
      case Idle => Sweep(s, i + 1)
      case Clash => Swept(s, Some(i), 0)
      case Implied =>
        var r := Sweep(Imply(s, i), i + 1);
        r.(count := r.count + 1)
  }

  function AddCount(r: Swept, count: nat): Swept { r.(count := r.count + count) }

  function AfterSweeps(s: State, n: nat): (t: State)
    requires Shaped(s)
    ensures Shaped(t) && t.vars == s.vars && t.clauses == s.clauses && t.cur == s.cur
  {
    if n == 0 then s else Sweep(AfterSweeps(s, n - 1), 0).state
  }

  // The pass that starts in s calls for another one.
  predicate GoesOn(s: State)
    requires Shaped(s)
  {
    Sweep(s, 0).conflict.None? && Sweep(s, 0).count != 0
  }

  // Propagation from s ends in t, after n passes that each call for another.
  ghost predicate PropagatesTo(s: State, t: State, conflict: Option<nat>, n: nat) {
    && Shaped(s)
    && (forall m :: 0 <= m < n ==> GoesOn(AfterSweeps(s, m)))
    && !GoesOn(AfterSweeps(s, n))
    && Sweep(AfterSweeps(s, n), 0).state == t && Sweep(AfterSweeps(s, n), 0).conflict == conflict
  }

  // n passes that each call for another, and then the one that ended in t.
  ghost predicate Sweeping(s: State, t: State, conflict: Option<nat>, count: nat, n: nat) {
    && Shaped(s)
    && (forall m :: 0 <= m < n ==> GoesOn(AfterSweeps(s, m)))
    && Sweep(AfterSweeps(s, n), 0) == Swept(t, conflict, count)
  }

  lemma SweepingStarts(s: State, t: State, conflict: Option<nat>, count: nat)
    requires Shaped(s) && Sweep(s, 0) == Swept(t, conflict, count)
    ensures AfterSweeps(s, 0) == s && Sweeping(s, t, conflict, count, 0)
  {
  }

  lemma SweepingOn(s: State, t: State, count: nat, n: nat, t': State, conflict': Option<nat>, count': nat)
    requires Sweeping(s, t, None, count, n) && count != 0
    requires Shaped(t) && Sweep(t, 0) == Swept(t', conflict', count')
    ensures AfterSweeps(s, n + 1) == t && Sweeping(s, t', conflict', count', n + 1)
  {
    hide Sweep;
  }

  lemma SweepingEnds(s: State, t: State, conflict: Option<nat>, count: nat, n: nat)
    requires Sweeping(s, t, conflict, count, n) && (count == 0 || conflict.Some?)
    ensures PropagatesTo(s, t, conflict, n)
  {
    hide Sweep;
  }

  lemma PropagationDeterministic(
      s: State, t: State, conflict: Option<nat>, n: nat, t': State, conflict': Option<nat>, n': nat)
    requires PropagatesTo(s, t, conflict, n) && PropagatesTo(s, t', conflict', n')
    ensures t == t' && conflict == conflict'
  {
    hide GoesOn, Sweep, AfterSweeps;
    if n < n' || n' < n { assert false; }
  }

  // ---- What propagation leaves free ----

  // Propagation from s meets no conflict and leaves a variable free.
  ghost predicate LeavesFree(s: State) {
    exists u, n, v: nat :: PropagatesTo(s, u, None, n) && Free(u.assign, v)
  }

  lemma LeavesFreeWhen(s: State, t: State, conflict: Option<nat>, n: nat)
    requires PropagatesTo(s, t, conflict, n)
    ensures t.cur == s.cur && t.clauses == s.clauses && Shaped(t)
    ensures LeavesFree(s) <==> conflict.None? && exists v: nat :: Free(t.assign, v)
  {
    assert t == AfterSweeps(s, n + 1);
    hide PropagatesTo;
    if LeavesFree(s) {
      var u, m, v: nat :| PropagatesTo(s, u, None, m) && Free(u.assign, v);
      PropagationDeterministic(s, t, conflict, n, u, None, m);
    }
  }

  // At level zero propagation has nothing to do, and a variable is free.
  ghost predicate Bare(s: State) {
    && InRange(s)
    && AllSettled(BackTo(s, 0))
    && exists v: nat :: Free(BackTo(s, 0).assign, v)
  }

  lemma SettledPropagates(s: State)
    requires Inv(s) && AllSettled(s)
    ensures PropagatesTo(s, s, None, 0)
  {
    IdleSweep(s, 0, |s.clauses|);
    assert AfterSweeps(s, 0) == s;
  }

  lemma BareLeavesFree(s: State)
    requires Bare(s) && Inv(BackTo(s, 0))
    ensures LeavesFree(BackTo(s, 0))
  {
    hide BackTo;
    SettledPropagates(BackTo(s, 0));
  }

  lemma DecidedFromZero(s: State, v: nat, t: State)
    requires Inv(s) && s.cur == 0 && AllSettled(s) && DecidesTo(s, v, t)
    ensures Bare(t)
  {
    BacktrackUndoesRun(s, v, []);
    hide BackTo;
    DecideKeeps(s, v);
    var u := BackTo(t, 0);
    forall i | 0 <= i < |u.clauses| ensures Settled(u.assign, u.clauses[i]) {
      assert Settled(s.assign, s.clauses[i]);
    }
  }

  lemma BackToZeroStays(s: State)
    requires Inv(s) && s.cur == 0
    ensures InRange(s) && BackTo(s, 0) == s
  {
    if s.trail != [] {
      var v := s.trail[|s.trail| - 1];
      assert v in s.trail;
      LevelsBounded(s, v);
    }
  }

  // ---- Where propagation ends ----

  lemma {:induction false} SweepKeeps(s: State, i: nat)
    requires Inv(s) && Shaped(s)
    ensures Inv(Sweep(s, i).state)
    decreases |s.clauses| - i
  {
    hide Inv, ScanOf, Imply;
    if i >= |s.clauses| {
    } else if ScanOf(s.assign, s.clauses[i]) == Idle {
      SweepKeeps(s, i + 1);
    } else if ScanOf(s.assign, s.clauses[i]) == Implied {
      var p := ImplyPropagates(s, i);
      PropagateKeeps(s, i, p);
      SweepKeeps(Imply(s, i), i + 1);
    }
  }

  lemma {:induction false} PropagationKeeps(s: State, n: nat)
    requires Inv(s) && Shaped(s)
    ensures Inv(AfterSweeps(s, n))
  {
    if n == 0 {
    } else {
      PropagationKeeps(s, n - 1);
      SweepKeeps(AfterSweeps(s, n - 1), 0);
    }
  }

  lemma {:induction false} SweepOutcome(s: State, i: nat)
    requires Inv(s) && Shaped(s)
    ensures var r := Sweep(s, i);
      && |r.state.trail| == |s.trail| + r.count
      && (r.conflict.Some? ==>
           r.conflict.value < |s.clauses| && Falsified(r.state.assign, s.clauses[r.conflict.value]))
      && (r.conflict.None? && r.count == 0 ==>
           r.state == s && forall j :: i <= j < |s.clauses| ==> Settled(s.assign, s.clauses[j]))
    decreases |s.clauses| - i
  {
    hide Inv, ScanOf, Imply, Settled, Falsified;
    if i >= |s.clauses| {
    } else {
      ScanMeaning(s, i);
      if ScanOf(s.assign, s.clauses[i]) == Idle {
        SweepOutcome(s, i + 1);
      } else if ScanOf(s.assign, s.clauses[i]) == Implied {
        var p := ImplyPropagates(s, i);
        PropagateKeeps(s, i, p);
        SweepOutcome(Imply(s, i), i + 1);
      }
    }
  }

  // Propagation keeps the invariant and ends with a false clause or with every clause settled.
  lemma PropagationEnds(s: State, t: State, conflict: Option<nat>, n: nat)
    requires Inv(s) && PropagatesTo(s, t, conflict, n)
    ensures Inv(t) && t.vars == s.vars && t.clauses == s.clauses && t.cur == s.cur
    ensures conflict.Some? ==> conflict.value < |t.clauses| && Falsified(t.assign, t.clauses[conflict.value])
    ensures conflict.None? ==> AllSettled(t)
  {
    hide Inv, Falsified, Settled, Sweep;
    PropagationKeeps(s, n);
    SweepKeeps(AfterSweeps(s, n), 0);
    SweepOutcome(AfterSweeps(s, n), 0);
  }

  // A propagation without a conflict ends with a pass that adds nothing.
  lemma EndsIdle(s: State, t: State, conflict: Option<nat>, count: nat, n: nat)
    requires Sweeping(s, t, conflict, count, n) && PropagatesTo(s, t, conflict, n)
    ensures conflict.None? ==> count == 0
  {
    hide Sweep;
  }

  lemma {:induction false} AfterSweepsShift(s: State, n: nat)
    requires Shaped(s)
    ensures AfterSweeps(s, n + 1) == AfterSweeps(Sweep(s, 0).state, n)
  {
    hide Sweep;
    if n == 0 {
      assert AfterSweeps(s, 1) == Sweep(AfterSweeps(s, 0), 0).state;
    } else {
      AfterSweepsShift(s, n - 1);
    }
  }

  // Propagation always ends, since each pass but the last assigns a variable.
  lemma {:induction false} PropagationTerminates(s: State) returns (t: State, conflict: Option<nat>, n: nat)
    requires Inv(s) && Shaped(s)
    ensures PropagatesTo(s, t, conflict, n)
    decreases |s.vars| - |s.trail|
  {
    hide Inv, Sweep;
    assert AfterSweeps(s, 0) == s;
    if !GoesOn(s) {
      t, conflict, n := Sweep(s, 0).state, Sweep(s, 0).conflict, 0;
    } else {
      var next := Sweep(s, 0).state;
      SweepOutcome(s, 0);
      SweepKeeps(s, 0);
      TrailFits(next);
      t, conflict, n := PropagationTerminates(next);
      LaterPropagation(s, t, conflict, n);
      n := n + 1;
    }
  }

  lemma LaterPropagation(s: State, t: State, conflict: Option<nat>, n: nat)
    requires Shaped(s) && GoesOn(s) && PropagatesTo(Sweep(s, 0).state, t, conflict, n)
    ensures PropagatesTo(s, t, conflict, n + 1)
  {
    assert AfterSweeps(s, 0) == s;
    hide Sweep, GoesOn, AfterSweeps;
    forall m | 0 <= m < n + 1 ensures GoesOn(AfterSweeps(s, m)) {
      if m > 0 {
        AfterSweepsShift(s, m - 1);
        assert GoesOn(AfterSweeps(Sweep(s, 0).state, m - 1));
      }
    }
    AfterSweepsShift(s, n);
  }

  // A variable on which two satisfying valuations differ is not assigned at level zero.
  lemma UndeterminedStaysFree(
      s: State, clauses: seq<seq<Literal>>, tau: Valuation, tau': Valuation, v: nat)
    requires Inv(s) && s.cur == 0 && FollowsFrom(s.clauses, clauses)
    requires Satisfies(tau, clauses) && Satisfies(tau', clauses)
    requires v < |s.vars| && tau(s.vars[v].Value()) != tau'(s.vars[v].Value())
    ensures Free(s.assign, v)
  {
    if !Free(s.assign, v) {
      var j :| 0 <= j < |s.trail| && s.trail[j] == v;
      LevelsBounded(s, v);
      forall d | 0 <= d < |s.trail| && IsDecisionAt(s, d) ensures s.level[s.trail[d]] >= 1 {
        assert LevelStep(s, d);
      }
      EntailedByDecisions(s, tau, 0, j);
      EntailedByDecisions(s, tau', 0, j);
    }
  }

  lemma UndeterminedLeavesFree(
      s: State, clauses: seq<seq<Literal>>, tau: Valuation, tau': Valuation, v: nat)
    requires Inv(s) && s.cur == 0 && FollowsFrom(s.clauses, clauses)
    requires Satisfies(tau, clauses) && Satisfies(tau', clauses)
    requires v < |s.vars| && tau(s.vars[v].Value()) != tau'(s.vars[v].Value())
    ensures LeavesFree(s)
  {
    var t, conflict, n := PropagationTerminates(s);
    PropagationEnds(s, t, conflict, n);
    if conflict.Some? { LevelZeroConflict(t, conflict.value, tau); }
    hide Inv, PropagatesTo, LeavesFree, Satisfies, SatisfiesTable;
    UndeterminedStaysFree(t, clauses, tau, tau', v);
    LeavesFreeWhen(s, t, conflict, n);
  }

  // ---- One turn of the main loop ----

  // All that a turn depends on.
  datatype Snapshot = Snapshot(
    state: State,
    activity: seq<int>,
    conf: Configuration,
    sinceRestart: nat,
    conflicts: nat)

  function Restarted(conf: Configuration): Configuration {
    conf.(restartThreshold := conf.restartThreshold * conf.restartMultiplier % UINT32)
  }

  ghost function AfterRestart(a: Snapshot): Snapshot
    requires InRange(a.state)
  {
    if a.sinceRestart < a.conf.restartThreshold then a
    else a.(state := BackTo(a.state, 0), conf := Restarted(a.conf), sinceRestart := 0)
  }

  ghost predicate StepDecides(a: Snapshot, b: Snapshot) {
    && b == a.(state := b.state)
    && exists u, n, v: nat ::
      PropagatesTo(a.state, u, None, n) && FirstMostActive(u.assign, a.activity, v) && DecidesTo(u, v, b.state)
  }

  ghost predicate DecidesTo(u: State, v: nat, t: State) {
    Shaped(u) && Free(u.assign, v) && t == Decide(u, v)
  }

  ghost predicate StepEnds(a: Snapshot, b: Snapshot) {
    && b == a.(state := b.state)
    && (exists n :: PropagatesTo(a.state, b.state, None, n))
    && forall v: nat :: !Free(b.state.assign, v)
  }

  ghost predicate StepConflicts(a: Snapshot, b: Snapshot) {
    exists u, n, i :: PropagatesTo(a.state, u, Some(i), n) && Handles(a, u, i, b)
  }

  // Above level zero the conflict's clause is learned and its variables are bumped.
  ghost predicate Handles(a: Snapshot, u: State, i: nat, b: Snapshot) {
    && b.conf == a.conf && b.sinceRestart == a.sinceRestart + 1 && b.conflicts == a.conflicts + 1
    && if a.state.cur == 0 then b.state == u && b.activity == a.activity
       else
         && LearnedFrom(u, b.state, i)
         && ActivityBumped(a.activity, b.activity, b.state.clauses[|u.clauses|], a.conf, b.conflicts)
  }

  // A turn after any restart.
  ghost predicate Stepped(a: Snapshot, b: Snapshot) {
    StepDecides(a, b) || StepEnds(a, b) || StepConflicts(a, b)
  }

  ghost predicate Turned(a: Snapshot, b: Snapshot) {
    InRange(a.state) && Stepped(AfterRestart(a), b)
  }

  lemma DecisionSteps(a: Snapshot, b: Snapshot, u: State, n: nat)
    requires PropagatesTo(a.state, u, None, n) && u.cur == a.state.cur && Inv(u) && AllSettled(u)
    requires b == a.(state := b.state)
    requires exists v: nat :: FirstMostActive(u.assign, a.activity, v) && DecidesTo(u, v, b.state)
    ensures Stepped(a, b) && (a.state.cur == 0 ==> Bare(b.state))
  {
    hide Inv, PropagatesTo, AllSettled, Bare;
    var v: nat :| FirstMostActive(u.assign, a.activity, v) && DecidesTo(u, v, b.state);
    assert StepDecides(a, b);
    if u.cur == 0 { DecidedFromZero(u, v, b.state); }
  }

  lemma EndSteps(a: Snapshot, b: Snapshot, n: nat)
    requires b == a.(state := b.state)
    requires PropagatesTo(a.state, b.state, None, n) && forall v: nat :: !Free(b.state.assign, v)
    ensures Stepped(a, b)
  {
    assert StepEnds(a, b);
  }

  lemma ConflictSteps(a: Snapshot, c: Snapshot, b: Snapshot, i: nat, n: nat)
    requires PropagatesTo(a.state, c.state, Some(i), n) && Handles(c, c.state, i, b)
    requires c == a.(state := c.state) && c.state.cur == a.state.cur
    ensures Stepped(a, b)
  {
    assert Handles(a, c.state, i, b);
    assert StepConflicts(a, b);
  }

  // Which of the three a step is, and what it leads to, follow from where propagation ends.
  lemma StepDecision(a: Snapshot, b: Snapshot, u: State, n: nat, v: nat)
    requires Stepped(a, b) && PropagatesTo(a.state, u, None, n) && FirstMostActive(u.assign, a.activity, v)
    ensures b == a.(state := b.state) && DecidesTo(u, v, b.state)
  {
    hide PropagatesTo, Handles;
    if StepDecides(a, b) {
      var u', n', v': nat :|
        PropagatesTo(a.state, u', None, n') && FirstMostActive(u'.assign, a.activity, v') && DecidesTo(u', v', b.state);
      PropagationDeterministic(a.state, u, None, n, u', None, n');
      assert v == v';
    } else if StepEnds(a, b) {
      var n' :| PropagatesTo(a.state, b.state, None, n');
      PropagationDeterministic(a.state, u, None, n, b.state, None, n');
      assert false;
    } else {
      var u', n', i :| PropagatesTo(a.state, u', Some(i), n') && Handles(a, u', i, b);
      PropagationDeterministic(a.state, u, None, n, u', Some(i), n');
      assert false;
    }
  }

  lemma StepConflict(a: Snapshot, b: Snapshot, u: State, n: nat, i: nat)
    requires Stepped(a, b) && PropagatesTo(a.state, u, Some(i), n)
    ensures Handles(a, u, i, b)
  {
    hide PropagatesTo, Handles;
    if StepDecides(a, b) {
      var u', n', v': nat :|
        PropagatesTo(a.state, u', None, n') && FirstMostActive(u'.assign, a.activity, v') && DecidesTo(u', v', b.state);
      PropagationDeterministic(a.state, u, Some(i), n, u', None, n');
      assert false;
    } else if StepEnds(a, b) {
      var n' :| PropagatesTo(a.state, b.state, None, n');
      PropagationDeterministic(a.state, u, Some(i), n, b.state, None, n');
      assert false;
    } else {
      var u', n', i' :| PropagatesTo(a.state, u', Some(i'), n') && Handles(a, u', i', b);
      PropagationDeterministic(a.state, u, Some(i), n, u', Some(i'), n');
    }
  }

  lemma StepEnd(a: Snapshot, b: Snapshot, u: State, n: nat)
    requires Stepped(a, b) && PropagatesTo(a.state, u, None, n) && forall v: nat :: !Free(u.assign, v)
    ensures b == a.(state := u)
  {
    hide PropagatesTo, Handles;
    if StepDecides(a, b) {
      var u', n', v': nat :|
        PropagatesTo(a.state, u', None, n') && FirstMostActive(u'.assign, a.activity, v') && DecidesTo(u', v', b.state);
      PropagationDeterministic(a.state, u, None, n, u', None, n');
      assert false;
    } else if StepEnds(a, b) {
      var n' :| PropagatesTo(a.state, b.state, None, n');
      PropagationDeterministic(a.state, u, None, n, b.state, None, n');
    } else {
      var u', n', i :| PropagatesTo(a.state, u', Some(i), n') && Handles(a, u', i, b);
      PropagationDeterministic(a.state, u, None, n, u', Some(i), n');
      assert false;
    }
  }

  // A step has one outcome, activities and counters included, and keeps the invariant.
  lemma StepDeterministic(a: Snapshot, b: Snapshot, b': Snapshot)
    requires Inv(a.state) && Stepped(a, b) && Stepped(a, b')
    ensures b == b'
  {
    hide Inv, PropagatesTo, FirstMostActive;
    if StepDecides(a, b) {
      var u, n, v: nat :|
        PropagatesTo(a.state, u, None, n) && FirstMostActive(u.assign, a.activity, v) && DecidesTo(u, v, b.state);
      StepDecision(a, b', u, n, v);
    } else if StepEnds(a, b) {
      var n :| PropagatesTo(a.state, b.state, None, n);
      StepEnd(a, b', b.state, n);
    } else {
      var u, n, i :| PropagatesTo(a.state, u, Some(i), n) && Handles(a, u, i, b);
      StepConflict(a, b', u, n, i);
      PropagationEnds(a.state, u, Some(i), n);
      HandledOnce(a, u, i, b, b');
    }
  }

  lemma HandledOnce(a: Snapshot, u: State, i: nat, b: Snapshot, b': Snapshot)
    requires Inv(u) && Handles(a, u, i, b) && Handles(a, u, i, b')
    ensures b == b'
  {
    if a.state.cur != 0 {
      LearnedOnce(u, b.state, b'.state, i);
      hide LearnedFrom;
    }
  }

  lemma StepKeeps(a: Snapshot, b: Snapshot)
    requires Inv(a.state) && Stepped(a, b)
    ensures Inv(b.state)
  {
    hide Inv, PropagatesTo, FirstMostActive, LearnedFrom, AllSettled;
    if StepDecides(a, b) {
      var u, n, v: nat :|
        PropagatesTo(a.state, u, None, n) && FirstMostActive(u.assign, a.activity, v) && DecidesTo(u, v, b.state);
      PropagationEnds(a.state, u, None, n);
      DecideKeeps(u, v);
    } else if StepEnds(a, b) {
      var n :| PropagatesTo(a.state, b.state, None, n);
      PropagationEnds(a.state, b.state, None, n);
    } else {
      var u, n, i :| PropagatesTo(a.state, u, Some(i), n) && Handles(a, u, i, b);
      PropagationEnds(a.state, u, Some(i), n);
      if a.state.cur != 0 { LearnsKeeps(u, b.state); }
    }
  }

  lemma RestartedKeeps(a: Snapshot)
    requires Inv(a.state)
    ensures InRange(a.state) && Inv(AfterRestart(a).state)
  {
    RestartKeeps(a.state);
  }

  ghost predicate IsSearch(run: seq<Snapshot>) {
    run != [] && forall i :: 0 <= i < |run| - 1 ==> Turned(run[i], run[i + 1])
  }

  // The whole search is determined by where it starts.
  lemma {:induction false} SearchDeterministic(run: seq<Snapshot>, run': seq<Snapshot>, i: nat)
    requires IsSearch(run) && IsSearch(run') && run[0] == run'[0] && Inv(run[0].state)
    requires i < |run| && i < |run'|
    ensures run[i] == run'[i] && Inv(run[i].state)
  {
    hide Inv, Stepped, AfterRestart;
    if i == 0 {
    } else {
      SearchDeterministic(run, run', i - 1);
      assert Turned(run[i - 1], run[i - 1 + 1]) && Turned(run'[i - 1], run'[i - 1 + 1]);
      RestartedKeeps(run[i - 1]);
      StepDeterministic(AfterRestart(run[i - 1]), run[i], run'[i]);
      StepKeeps(AfterRestart(run[i - 1]), run[i]);
    }
  }

  // Some search leads from a to b.
  ghost predicate Searches(a: Snapshot, b: Snapshot) {
    exists run :: IsSearch(run) && run[0] == a && run[|run| - 1] == b
  }

  lemma SearchesSelf(a: Snapshot)
    ensures Searches(a, a)
  {
    assert IsSearch([a]) && [a][0] == a;
  }

  lemma SearchesOn(a: Snapshot, b: Snapshot, c: Snapshot)
    requires Searches(a, b) && Turned(b, c)
    ensures Searches(a, c)
  {
    hide Turned;
    var run :| IsSearch(run) && run[0] == a && run[|run| - 1] == b;
    var longer := run + [c];
    forall i | 0 <= i < |longer| - 1 ensures Turned(longer[i], longer[i + 1]) {
      if i < |run| - 1 { assert Turned(run[i], run[i + 1]); }
    }
    assert longer[0] == a && longer[|longer| - 1] == c;
  }

  // A turn that starts with nothing to propagate only decides.
  lemma SettledStep(a: Snapshot, b: Snapshot, v: nat)
    requires Inv(a.state) && AllSettled(a.state) && Stepped(a, b) && FirstMostActive(a.state.assign, a.activity, v)
    ensures b == a.(state := b.state) && DecidesTo(a.state, v, b.state)
  {
    hide Stepped;
    SettledPropagates(a.state);
    StepDecision(a, b, a.state, 0, v);
  }

  // A turn in which clause i propagates and thereby falsifies the next one.
  lemma ClashStep(a: Snapshot, b: Snapshot, i: nat)
    requires Inv(a.state) && Shaped(a.state) && Stepped(a, b) && i + 1 < |a.state.clauses|
    requires forall j :: 0 <= j < i ==> Settled(a.state.assign, a.state.clauses[j])
    requires ScanOf(a.state.assign, a.state.clauses[i]) == Implied
    requires ScanOf(Imply(a.state, i).assign, a.state.clauses[i + 1]) == Clash
    ensures Handles(a, Imply(a.state, i), i + 1, b)
  {
    hide ScanOf, Stepped, Handles, Inv;
    var s := a.state;
    var u := Imply(s, i);
    assert Sweep(u, i + 1) == Swept(u, Some(i + 1), 0);
    assert Sweep(s, i) == Swept(u, Some(i + 1), 1);
    IdleSweep(s, 0, i);
    assert AfterSweeps(s, 0) == s;
    assert PropagatesTo(s, u, Some(i + 1), 0);
    StepConflict(a, b, u, 0, i + 1);
  }

  lemma {:induction false} IdleSweep(s: State, i: nat, k: nat)
    requires Inv(s) && Shaped(s) && i <= k <= |s.clauses|
    requires forall j :: i <= j < k ==> Settled(s.assign, s.clauses[j])
    ensures Sweep(s, i) == Sweep(s, k)
    decreases k - i
  {
    hide Inv, Settled, ScanOf;
    if i == k {
    } else {
      ScanMeaning(s, i);
      IdleSweep(s, i + 1, k);
    }
  }
}
