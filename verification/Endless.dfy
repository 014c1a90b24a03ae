// Two satisfiable models on which the search never ends: with a threshold that is zero from
// the start, and with a positive one that wraps around at the first restart.
module Endless {
  import opened Basics
  import opened Cnf
  import opened Clauses
  import opened Search
  import opened Vsids
  import opened Sweeps
  import opened SolverContext
  import opened Loading
  import opened Departures

  // ---- Threshold zero ----

  // (1 2)
  function EitherTable(): seq<Clause> { [[Pos(1), Pos(2)]] }

  const NO_THRESHOLD := Configuration(0, 1, 10, 100, 0.95)

  lemma EitherLoads()
    ensures TableOver(2, EitherTable())
  {
  }

  lemma EitherUndetermined()
    ensures Undetermined(ModelOf(2, EitherTable(), NO_THRESHOLD))
  {
    var model := ModelOf(2, EitherTable(), NO_THRESHOLD);
    assert Signed(EitherTable()[0]) == [Literal(1), Literal(2)];
    assert model.clauses == [[Literal(1), Literal(2)]];
    var tau: Valuation := x => true;
    var tau': Valuation := x => x == 1;
    assert Holds(tau, model.clauses[0][0]) && Holds(tau', model.clauses[0][0]);
    hide SignedTable, EitherTable, Signed;
    Differ(model, tau, tau', 1);
  }

  lemma Differ(model: Model, tau: Valuation, tau': Valuation, v: nat)
    requires Satisfies(tau, model.clauses) && Satisfies(tau', model.clauses)
    requires v < |model.literals| && tau(model.literals[v].Value()) != tau'(model.literals[v].Value())
    ensures Undetermined(model)
  {
  }

  method EitherNeverReturns() returns (context: Context, r: Outcome<Result<seq<Literal>, SatError>>)
    ensures fresh(context) && context.model == ModelOf(2, EitherTable(), NO_THRESHOLD)
    ensures r.NeverReturns?
  {
    EitherLoads();
    EitherUndetermined();
    hide EitherTable, TableOver, Undetermined, SignedTable, Counts, Fresh, Inv, Bare, LeavesFree;
    hide Context.Sound, Context.Valid, Context.Stuck, Context.Finished, Context.Outlives;
    context := Load(2, EitherTable(), NO_THRESHOLD);
    assert context.Vanishing();
    hide Context.Vanishing, Context.Snap, Context.Restarting, Restarted, Numbered;
    r := context.SolveSat();
  }

  // ---- A threshold that wraps around ----

  // (-1 2) (-1 -2) (-3 4) (-3 -4) (1 3 5): both conflicts teach a unit clause, and nothing
  // settles 2 and 4.
  function WrapTable(): seq<Clause> {
    [[Neg(1), Pos(2)], [Neg(1), Neg(2)], [Neg(3), Pos(4)], [Neg(3), Neg(4)], [Pos(1), Pos(3), Pos(5)]]
  }

  // Twice the multiplier is the width of the field.
  const WRAPPING := Configuration(2, 0x8000_0000, 10, 100, 0.95)

  lemma WrapShort()
    ensures ShortTable(5, WrapTable()) && |WrapTable()| == 5
  {
    assert TableOver(5, WrapTable());
    var s := Fresh(Numbered(5), WrapTable());
    forall i | 0 <= i < 5 ensures Settled(s.assign, WrapTable()[i]) {
      FreePair(s.assign, WrapTable()[i], 0, 1);
    }
  }

  lemma WrapCounts()
    ensures Counts(5, WrapTable()) == [3, 2, 3, 2, 1]
  {
    var a, b, c, d, e := [Literal(-1), Literal(2)], [Literal(-1), Literal(-2)],
                         [Literal(-3), Literal(4)], [Literal(-3), Literal(-4)],
                         [Literal(1), Literal(3), Literal(5)];
    assert Signed(WrapTable()[0]) == a && Signed(WrapTable()[1]) == b && Signed(WrapTable()[2]) == c;
    assert Signed(WrapTable()[3]) == d && Signed(WrapTable()[4]) == e;
    assert SignedTable(WrapTable()) == [a, b, c, d, e];
    hide SignedTable, Signed;
    forall x: nat ensures Occurrences([a, b, c, d, e], x) ==
      if x == 1 || x == 3 then 3 else if x == 2 || x == 4 then 2 else if x == 5 then 1 else 0
    {
      OccurrencesFive(a, b, c, d, e, x);
      OccurrencesFour(a, b, c, d, x);
      OccurrencesThree(a, b, c, x);
      OccurrencesPair(Literal(-1), Literal(2), x);
      OccurrencesPair(Literal(-1), Literal(-2), x);
      OccurrencesPair(Literal(-3), Literal(4), x);
      OccurrencesPair(Literal(-3), Literal(-4), x);
      OccurrencesPair(Literal(1), Literal(3), x);
      OccurrencesTriple(Literal(1), Literal(3), Literal(5), x);
    }
  }

  lemma WrapUndetermined()
    ensures Undetermined(ModelOf(5, WrapTable(), WRAPPING))
  {
    var model := ModelOf(5, WrapTable(), WRAPPING);
    var tau: Valuation := x => x == 5;
    var tau': Valuation := x => x == 5 || x == 2;
    forall i | 0 <= i < 5
      ensures SatisfiesClause(tau, model.clauses[i]) && SatisfiesClause(tau', model.clauses[i])
    {
      var p := if i == 4 then 2 else 0;
      assert Holds(tau, model.clauses[i][p]) && Holds(tau', model.clauses[i][p]);
    }
    Differ(model, tau, tau', 1);
  }

  // The first conflict bumps variable 1.
  lemma WrapActivity(before: seq<int>, activity: seq<int>)
    requires before == [3, 2, 3, 2, 1] && ActivityBumped(before, activity, [Neg(1)], WRAPPING, 1)
    ensures activity == [13, 2, 3, 2, 1]
  {
    assert [Neg(1)][..0] == [];
    assert Bumped(before, [Neg(1)], 10) == [13, 2, 3, 2, 1];
  }

  // After it nothing is assigned, and the learned clause (-1) stands last.
  lemma WrapLearned(s: State)
    requires InRange(Learn(ShortConflict(5, WrapTable()), [Neg(1)]))
    requires s == BackTo(Learn(ShortConflict(5, WrapTable()), [Neg(1)]), 0)
    ensures s.clauses == WrapTable() + [[Neg(1)]] && s.trail == [] && s.cur == 0
    ensures s.assign == [NotAssigned, NotAssigned, NotAssigned, NotAssigned, NotAssigned]
  {
    WrapShort();
    ShortInv(5, WrapTable());
    ShortStates(5, WrapTable());
    BackToLevel(Learn(ShortConflict(5, WrapTable()), [Neg(1)]), 0);
    assert ClauseWf(ShortConflict(5, WrapTable()).vars, [Neg(1)]);
    hide Inv, BackTo, ShortConflict, WrapTable;
    NothingAtZero(ShortConflict(5, WrapTable()), [Neg(1)]);
  }

  // The last clause is unit, the others are settled, and so are all in u, once it has propagated.
  ghost predicate LastIsUnit(s: State, u: State) {
    && Shaped(s) && s.clauses != []
    && (forall j :: 0 <= j < |s.clauses| - 1 ==> Settled(s.assign, s.clauses[j]))
    && ScanOf(s.assign, s.clauses[|s.clauses| - 1]) == Implied
    && u == Imply(s, |s.clauses| - 1) && AllSettled(u)
  }

  lemma UnitSweep(s: State, u: State)
    requires Inv(s) && LastIsUnit(s, u)
    ensures PropagatesTo(s, u, None, 1)
  {
    var k := |s.clauses| - 1;
    var p := ImplyPropagates(s, k);
    PropagateKeeps(s, k, p);
    IdleSweep(s, 0, k);
    IdleSweep(u, 0, |u.clauses|);
    hide Inv, Imply, ScanOf, Settled;
    assert Sweep(u, k + 1) == Swept(u, None, 0);
    assert Sweep(s, k) == Swept(u, None, 1);
    assert AfterSweeps(s, 0) == s && AfterSweeps(s, 1) == u;
  }

  // One turn in which only the last clause propagates.
  method TurnUnit(context: Context, ghost u: State, ghost v: nat)
    requires context.Valid() && !context.RestartDue() && LastIsUnit(context.View(), u)
    requires FirstMostActive(u.assign, context.activity, v)
    modifies context
    ensures context.Valid() && context.Snap() == old(context.Snap()).(state := context.View())
    ensures DecidesTo(u, v, context.View())
  {
    hide Inv, LastIsUnit, Stepped, Context.Sound, Context.Stuck, Context.Finished, LeavesFree, FirstMostActive;
    hide PropagatesTo;
    ghost var a := context.Snap();
    UnitSweep(a.state, u);
    var solution, unsat := context.Turn();
    StepDecision(a, context.Snap(), u, 1, v);
  }

  // The next turn propagates -1 and decides 3.
  lemma WrapUnit(s: State)
    requires Shaped(s) && s.clauses == WrapTable() + [[Neg(1)]]
    requires s.assign == [NotAssigned, NotAssigned, NotAssigned, NotAssigned, NotAssigned]
    ensures |s.clauses| == 6 && ScanOf(s.assign, s.clauses[5]) == Implied && LastIsUnit(s, Imply(s, 5))
    ensures Imply(s, 5).assign == [Off, NotAssigned, NotAssigned, NotAssigned, NotAssigned]
  {
    forall j | 0 <= j < 5 ensures Settled(s.assign, s.clauses[j]) { FreePair(s.assign, s.clauses[j], 0, 1); }
    UnitScan(s.assign);
    hide UnassignedOf, Settled;
    WrapSettled(Imply(s, 5));
  }

  lemma WrapSettled(u: State)
    requires u.clauses == WrapTable() + [[Neg(1)]]
    requires u.assign == [Off, NotAssigned, NotAssigned, NotAssigned, NotAssigned]
    ensures AllSettled(u)
  {
    assert LitTrue(u.assign, u.clauses[0][0]) && LitTrue(u.assign, u.clauses[1][0]);
    assert LitTrue(u.assign, u.clauses[5][0]);
    FreePair(u.assign, u.clauses[2], 0, 1);
    FreePair(u.assign, u.clauses[3], 0, 1);
    FreePair(u.assign, u.clauses[4], 1, 2);
  }

  lemma {:induction false} UnitScan(assign: seq<Assignment>)
    requires Free(assign, 0)
    ensures UnassignedOf(assign, [Neg(1)]) == [Neg(1)] && !ClauseSatisfied(assign, [Neg(1)])
  {
    assert [Neg(1)][1..] == [];
  }

  lemma WrapMostActive(assign: seq<Assignment>, activity: seq<int>)
    requires assign == [Off, NotAssigned, NotAssigned, NotAssigned, NotAssigned] && activity == [13, 2, 3, 2, 1]
    ensures FirstMostActive(assign, activity, 2)
  {
  }

  // The turn after that meets the second conflict.
  lemma WrapClash(s: State)
    requires Shaped(s) && s.clauses == WrapTable() + [[Neg(1)]]
    requires s.assign == [Off, NotAssigned, On, NotAssigned, NotAssigned]
    ensures forall j :: 0 <= j < 2 ==> Settled(s.assign, s.clauses[j])
    ensures ScanOf(s.assign, s.clauses[2]) == Implied
    ensures ScanOf(Imply(s, 2).assign, s.clauses[3]) == Clash
  {
    assert LitTrue(s.assign, s.clauses[0][0]) && LitTrue(s.assign, s.clauses[1][0]);
    WrapScan(s.assign);
    WrapFalse(Imply(s, 2).assign);
  }

  lemma {:induction false} WrapScan(assign: seq<Assignment>)
    requires assign == [Off, NotAssigned, On, NotAssigned, NotAssigned]
    ensures UnassignedOf(assign, [Neg(3), Pos(4)]) == [Pos(4)] && !ClauseSatisfied(assign, [Neg(3), Pos(4)])
  {
    assert [Neg(3), Pos(4)][1..] == [Pos(4)] && [Pos(4)][1..] == [];
  }

  lemma {:induction false} WrapFalse(assign: seq<Assignment>)
    requires assign == [Off, NotAssigned, On, On, NotAssigned]
    ensures UnassignedOf(assign, [Neg(3), Neg(4)]) == [] && !ClauseSatisfied(assign, [Neg(3), Neg(4)])
  {
    assert [Neg(3), Neg(4)][1..] == [Neg(4)] && [Neg(4)][1..] == [];
  }

  // Two turns: the first conflict, and what it leaves.
  method WrapFirst() returns (context: Context)
    ensures fresh(context) && context.Valid() && context.model == ModelOf(5, WrapTable(), WRAPPING)
    ensures context.config == WRAPPING && context.conflictsSinceRestart == 1
    ensures context.activity == [13, 2, 3, 2, 1] && context.clauses == WrapTable() + [[Neg(1)]]
    ensures context.assignment == [NotAssigned, NotAssigned, NotAssigned, NotAssigned, NotAssigned]
    ensures Shaped(context.View())
  {
    WrapShort();
    WrapCounts();
    hide Counts, ShortTable, SignedTable, WrapTable, Inv, BackTo, ShortConflict, ActivityBumped, Context.Sound;
    context := ShortRun(5, WrapTable(), WRAPPING);
    WrapLearned(context.View());
    WrapActivity(Counts(5, WrapTable()), context.activity);
    InvShape(context.View());
  }

  // Two more turns meet the second conflict, and the restart is due.
  method WrapSecond() returns (context: Context)
    ensures fresh(context) && context.Valid() && context.model == ModelOf(5, WrapTable(), WRAPPING)
    ensures context.config == WRAPPING && context.conflictsSinceRestart == 2
  {
    hide WrapTable, Inv, Context.Sound, FirstMostActive, LastIsUnit, ScanOf, Settled;
    context := WrapFirst();
    ghost var s := context.View();
    WrapUnit(s);
    ghost var u := Imply(s, 5);
    WrapMostActive(u.assign, context.activity);
    TurnUnit(context, u, 2);
    WrapClash(context.View());
    TurnClash(context, 2);
  }

  method WrapNeverReturns() returns (context: Context, r: Outcome<Result<seq<Literal>, SatError>>)
    ensures fresh(context) && context.model == ModelOf(5, WrapTable(), WRAPPING)
    ensures r.NeverReturns?
  {
    WrapUndetermined();
    hide WrapTable, Undetermined, Inv, Bare, LeavesFree, SignedTable, Numbered;
    hide Context.Sound, Context.Valid, Context.Stuck, Context.Finished, Context.Outlives;
    context := WrapSecond();
    assert context.Vanishing();
    hide Context.Vanishing, Context.Snap, Context.Restarting, Restarted;
    r := context.SolveSat();
  }
}
