// Three models on which the solver does not do what a textbook solver does. Each is loaded
// into a fresh context and taken up to its first conflict.
module Departures {
  import opened Basics
  import opened Cnf
  import opened Clauses
  import opened Search
  import opened Analysis
  import opened Learning
  import opened Vsids
  import opened Sweeps
  import opened SolverContext
  import opened Loading
  import opened CnfFile

  function Neg(x: nat): Bound
    requires x > 0
  {
    Bound(Literal(-(x as int)), x - 1)
  }

  function Pos(x: nat): Bound
    requires x > 0
  {
    Bound(Literal(x), x - 1)
  }

  // ---- From a table to a fresh context ----

  // The variables 1 to n.
  function Numbered(n: nat): seq<Literal> { seq(n, i requires 0 <= i < n => Literal(i + 1)) }

  function Signed(c: Clause): seq<Literal> { seq(|c|, p requires 0 <= p < |c| => c[p].lit) }

  function SignedTable(table: seq<Clause>): seq<seq<Literal>> {
    seq(|table|, i requires 0 <= i < |table| => Signed(table[i]))
  }

  function ModelOf(n: nat, table: seq<Clause>, conf: Configuration): Model {
    Model(Numbered(n), SignedTable(table), conf)
  }

  // How often each variable occurs.
  function Counts(n: nat, table: seq<Clause>): (r: seq<int>)
    ensures |r| == n
  {
    seq(n, v requires 0 <= v < n => Occurrences(SignedTable(table), v + 1))
  }

  ghost predicate TableOver(n: nat, table: seq<Clause>) {
    forall i :: 0 <= i < |table| ==> table[i] != [] && ClauseWf(Numbered(n), table[i])
  }

  lemma TableLoads(n: nat, table: seq<Clause>, i: nat)
    requires TableOver(n, table) && i < |table|
    ensures ClauseLoads(Numbered(n), SignedTable(table)[i])
  {
    forall p | 0 <= p < |table[i]| ensures Declares(Numbered(n), SignedTable(table)[i][p]) {
      assert BoundWf(Numbered(n), table[i][p]);
    }
  }

  // A signed clause can be bound to distinct variables in one way only.
  lemma BoundOnce(vars: seq<Literal>, c: Clause, d: Clause, m: seq<Literal>)
    requires VariablesWf(vars) && ClauseWf(vars, c) && ClauseWf(vars, d) && Mirrors(c, m) && Mirrors(d, m)
    ensures c == d
  {
    forall p | 0 <= p < |c| ensures c[p] == d[p] {
      assert BoundWf(vars, c[p]) && BoundWf(vars, d[p]);
    }
  }

  method Load(n: nat, table: seq<Clause>, conf: Configuration) returns (context: Context)
    requires TableOver(n, table) && ConfigurationWf(conf)
    ensures fresh(context) && context.Valid() && context.model == ModelOf(n, table, conf)
    ensures context.Snap() == Snapshot(Fresh(Numbered(n), table), Counts(n, table), conf, 0, 0)
    ensures context.Unlearned() == 0
  {
    hide Inv, Context.Sound, ClauseLoads, BoundWf, Occurrences, Fresh;
    var model := ModelOf(n, table, conf);
    forall i | 0 <= i < |table| ensures ClauseLoads(model.literals, model.clauses[i]) { TableLoads(n, table, i); }
    var r := MakeContext(model);
    context := r.value;
    forall i | 0 <= i < |table| ensures context.clauses[i] == table[i] {
      BoundOnce(model.literals, context.clauses[i], table[i], model.clauses[i]);
    }
    assert context.clauses == table && context.activity == Counts(n, table);
  }

  // One turn with nothing to propagate.
  method TurnSettled(context: Context, ghost v: nat)
    requires context.Valid() && !context.RestartDue() && AllSettled(context.View())
    requires FirstMostActive(context.assignment, context.activity, v)
    modifies context
    ensures context.Valid() && context.Snap() == old(context.Snap()).(state := context.View())
    ensures DecidesTo(old(context.View()), v, context.View())
  {
    hide Inv, AllSettled, Stepped, Context.Sound, Context.Stuck, Context.Finished, LeavesFree, FirstMostActive;
    ghost var a := context.Snap();
    var solution, unsat := context.Turn();
    SettledStep(a, context.Snap(), v);
  }

  // One turn in which clause i propagates and thereby falsifies the next one.
  method TurnClash(context: Context, ghost i: nat)
    requires context.Valid() && !context.RestartDue() && i + 1 < |context.clauses|
    requires forall j :: 0 <= j < i ==> Settled(context.assignment, context.clauses[j])
    requires Shaped(context.View()) && ScanOf(context.assignment, context.clauses[i]) == Implied
    requires ScanOf(Imply(context.View(), i).assign, context.clauses[i + 1]) == Clash
    modifies context
    ensures context.Valid() && Handles(old(context.Snap()), Imply(old(context.View()), i), i + 1, context.Snap())
  {
    hide Inv, Stepped, Context.Sound, Context.Stuck, Context.Finished, LeavesFree, ScanOf, Handles, Settled;
    ghost var a := context.Snap();
    var solution, unsat := context.Turn();
    ClashStep(a, context.Snap(), i);
  }

  // ---- Counting occurrences ----

  lemma OccurrencesPair(a: Literal, b: Literal, x: nat)
    ensures OccurrencesIn([a, b], x) == (if a.Value() == x then 1 else 0) + (if b.Value() == x then 1 else 0)
  {
    assert [a, b][..1] == [a] && [a][..0] == [];
    assert OccurrencesIn([a], x) == (if a.Value() == x then 1 else 0);
  }

  lemma OccurrencesTriple(a: Literal, b: Literal, c: Literal, x: nat)
    ensures OccurrencesIn([a, b, c], x) == OccurrencesIn([a, b], x) + (if c.Value() == x then 1 else 0)
  {
    assert [a, b, c][..2] == [a, b];
  }

  lemma OccurrencesThree(a: seq<Literal>, b: seq<Literal>, c: seq<Literal>, x: nat)
    ensures Occurrences([a, b, c], x) == OccurrencesIn(a, x) + OccurrencesIn(b, x) + OccurrencesIn(c, x)
  {
    assert [a, b, c][..2] == [a, b] && [a, b][..1] == [a] && [a][..0] == [];
    assert Occurrences([a], x) == OccurrencesIn(a, x);
    assert Occurrences([a, b], x) == OccurrencesIn(a, x) + OccurrencesIn(b, x);
    hide OccurrencesIn;
  }

  lemma OccurrencesFour(a: seq<Literal>, b: seq<Literal>, c: seq<Literal>, d: seq<Literal>, x: nat)
    ensures Occurrences([a, b, c, d], x) == Occurrences([a, b, c], x) + OccurrencesIn(d, x)
  {
    assert [a, b, c, d][..3] == [a, b, c];
    hide OccurrencesIn;
  }

  lemma OccurrencesFive(
      a: seq<Literal>, b: seq<Literal>, c: seq<Literal>, d: seq<Literal>, e: seq<Literal>, x: nat)
    ensures Occurrences([a, b, c, d, e], x) == Occurrences([a, b, c, d], x) + OccurrencesIn(e, x)
  {
    assert [a, b, c, d, e][..4] == [a, b, c, d];
    hide OccurrencesIn;
  }

  lemma FreePair(assign: seq<Assignment>, c: Clause, p: nat, q: nat)
    requires p < q < |c| && Free(assign, c[p].id) && Free(assign, c[q].id)
    ensures Settled(assign, c)
  {
  }

  // ---- A level that is a decision and one propagation ----

  ghost predicate PairLevel(s: State, conflict: Clause, u: nat) {
    && InConflict(s, conflict) && InRange(s) && |s.trail| == u + 2
    && AtCur(s, u) && IsDecisionAt(s, u)
    && AtCur(s, u + 1) && !IsDecisionAt(s, u + 1) && OccursIn(conflict, s.trail[u + 1])
  }

  lemma PairDecision(s: State, conflict: Clause, u: nat, d: nat)
    requires PairLevel(s, conflict, u) && AtCur(s, d) && IsDecisionAt(s, d)
    ensures d == u
  {
    if d < u { LevelsAscend(s, d, u); }
  }

  lemma PairBypass(s: State, conflict: Clause, u: nat)
    requires PairLevel(s, conflict, u)
    ensures Bypasses(s, conflict, u, u + 1) <==> OccursIn(conflict, s.trail[u])
  {
  }

  // Its decision is an implication point, and the propagation is one unless the conflict
  // clause has the decision too.
  lemma PairUips(s: State, conflict: Clause, u: nat)
    requires PairLevel(s, conflict, u)
    ensures IsUip(s, conflict, u)
    ensures IsUip(s, conflict, u + 1) <==> !OccursIn(conflict, s.trail[u])
    ensures StopsAt(s, conflict, u) <==> OccursIn(conflict, s.trail[u]) || Repeated(conflict, s.trail[u + 1])
  {
    hide InConflict, OccursIn, Repeated, Bypasses;
    forall d | AtCur(s, d) && IsDecisionAt(s, d) ensures d == u { PairDecision(s, conflict, u, d); }
    PairBypass(s, conflict, u);
    assert !Bypasses(s, conflict, u, u) by { SelfBypass(s, conflict, u); }
  }

  lemma SelfBypass(s: State, conflict: Clause, w: nat)
    requires InRange(s)
    ensures !Bypasses(s, conflict, w, w)
  {
  }

  lemma PairFrontier(s: State, conflict: Clause, u: nat, learned: Clause)
    requires PairLevel(s, conflict, u)
    requires forall x :: x in learned <==> (x in conflict || x in ReasonAt(s, u + 1)) && x.id != s.trail[u + 1]
    ensures IsFrontier(s, conflict, u, learned)
  {
    hide InConflict, OccursIn;
    var r := Reached(s, conflict, u);
    assert r == {u + 1} by { assert Reach(s, conflict, u + 1); }
    forall x ensures FrontierLit(s, conflict, r, x) <==>
      (x in conflict || x in ReasonAt(s, u + 1)) && x.id != s.trail[u + 1]
    {
      assert u + 1 in r;
    }
  }

  // With nothing assigned at level zero, a jump to it undoes everything.
  lemma NothingAtZero(s: State, learned: Clause)
    requires Inv(s) && learned != [] && ClauseWf(s.vars, learned)
    requires forall i :: 0 <= i < |s.trail| ==> s.trail[i] < |s.level| && s.level[s.trail[i]] >= 1
    ensures InRange(Learn(s, learned))
    ensures var t := BackTo(Learn(s, learned), 0);
      && t.clauses == s.clauses + [learned] && t.trail == [] && |t.assign| == |s.vars|
      && forall v :: 0 <= v < |s.vars| ==> t.assign[v] == NotAssigned
  {
    var l := Learn(s, learned);
    LearnKeepsGraph(s, learned);
    BackToExact(l, 0);
    assert forall v :: 0 <= v < |s.vars| ==> !Fixed(l, v, 0);
    hide BackTo;
    var t := BackTo(l, 0);
    assert l.trail == [] || l.level[l.trail[0]] >= 1;
  }

  // ---- A jump past the asserting level ----

  // (-2 3) (-1 -2 -3) (1 4) (1 5)
  const LOW_TABLE: seq<Clause> := [[Neg(2), Pos(3)], [Neg(1), Neg(2), Neg(3)], [Pos(1), Pos(4)], [Pos(1), Pos(5)]]

  function LowStart(): State { Fresh(Numbered(5), LOW_TABLE) }

  function LowDecided(): State { Decide(LowStart(), 0) }

  // The decisions are 1 and 2; then 3 follows and the second clause is false.
  function LowDecidedTwice(): State { Decide(LowDecided(), 1) }

  function LowConflict(): State { PropagateLit(LowDecidedTwice(), 0, Pos(3)) }

  lemma LowTable()
    ensures TableOver(5, LOW_TABLE)
  {
  }

  lemma LowStates()
    ensures LowStart().assign == [NotAssigned, NotAssigned, NotAssigned, NotAssigned, NotAssigned]
    ensures LowDecided().assign == [On, NotAssigned, NotAssigned, NotAssigned, NotAssigned]
    ensures LowDecidedTwice().assign == [On, On, NotAssigned, NotAssigned, NotAssigned]
    ensures LowConflict().assign == [On, On, On, NotAssigned, NotAssigned]
    ensures LowConflict().level == [1, 2, 2, 0, 0] && LowConflict().reason == [None, None, Some(0), None, None]
    ensures LowConflict().trail == [0, 1, 2] && LowConflict().cur == 2
  {
  }

  lemma LowCounts()
    ensures Counts(5, LOW_TABLE) == [3, 2, 2, 1, 1]
  {
    var a, b, c, d := [Literal(-2), Literal(3)], [Literal(-1), Literal(-2), Literal(-3)],
                      [Literal(1), Literal(4)], [Literal(1), Literal(5)];
    assert Signed(LOW_TABLE[0]) == a && Signed(LOW_TABLE[1]) == b;
    assert Signed(LOW_TABLE[2]) == c && Signed(LOW_TABLE[3]) == d;
    assert SignedTable(LOW_TABLE) == [a, b, c, d];
    hide SignedTable, Signed;
    forall x: nat ensures Occurrences([a, b, c, d], x) ==
      (if x == 1 then 3 else if x == 2 || x == 3 then 2 else if x == 4 || x == 5 then 1 else 0)
    {
      OccurrencesFour(a, b, c, d, x);
      OccurrencesThree(a, b, c, x);
      OccurrencesPair(Literal(-2), Literal(3), x);
      OccurrencesPair(Literal(-1), Literal(-2), x);
      OccurrencesTriple(Literal(-1), Literal(-2), Literal(-3), x);
      OccurrencesPair(Literal(1), Literal(4), x);
      OccurrencesPair(Literal(1), Literal(5), x);
    }
  }

  lemma LowSettled(s: State)
    requires s.clauses == LOW_TABLE
    requires s.assign == [NotAssigned, NotAssigned, NotAssigned, NotAssigned, NotAssigned]
          || s.assign == [On, NotAssigned, NotAssigned, NotAssigned, NotAssigned]
    ensures AllSettled(s)
  {
    FreePair(s.assign, LOW_TABLE[0], 0, 1);
    FreePair(s.assign, LOW_TABLE[1], 1, 2);
    if s.assign[0] == On {
      assert LitTrue(s.assign, LOW_TABLE[2][0]) && LitTrue(s.assign, LOW_TABLE[3][0]);
    } else {
      FreePair(s.assign, LOW_TABLE[2], 0, 1);
      FreePair(s.assign, LOW_TABLE[3], 0, 1);
    }
  }

  lemma LowInv()
    ensures Inv(LowDecided()) && Inv(LowDecidedTwice()) && Inv(LowConflict())
    ensures Shaped(LowDecidedTwice()) && ScanOf(LowDecidedTwice().assign, LOW_TABLE[0]) == Implied
    ensures Imply(LowDecidedTwice(), 0) == LowConflict()
  {
    LowTable();
    FreshInv(Numbered(5), LOW_TABLE);
    LowStates();
    LowSettled(LowStart());
    LowSettled(LowDecided());
    LowUnit();
    hide Inv, AllSettled;
    DecideKeeps(LowStart(), 0);
    DecideKeeps(LowDecided(), 1);
    var p := ImplyPropagates(LowDecidedTwice(), 0);
    PropagateKeeps(LowDecidedTwice(), 0, p);
  }

  lemma LowUnit()
    ensures UnassignedOf([On, On, NotAssigned, NotAssigned, NotAssigned], LOW_TABLE[0]) == [Pos(3)]
    ensures !ClauseSatisfied([On, On, NotAssigned, NotAssigned, NotAssigned], LOW_TABLE[0])
  {
    var c := LOW_TABLE[0];
    assert c[1..] == [Pos(3)] && c[1..][1..] == [];
  }

  // The learned clause is (-1 -2), with the decision 2 as implication point, and the jump
  // to level zero leaves both literals open although the first was already false at level one.
  lemma JumpMissesAssertingLevel()
    ensures InConflict(LowConflict(), LOW_TABLE[1])
    ensures Analysed(LowConflict(), LOW_TABLE[1], [Neg(1), Neg(2)], 0, 1)
    ensures InRange(Learn(LowConflict(), [Neg(1), Neg(2)]))
    ensures var t := BackTo(Learn(LowConflict(), [Neg(1), Neg(2)]), 0); |UnassignedOf(t.assign, [Neg(1), Neg(2)])| == 2
  {
    LowInv();
    LowPair();
    LowAnalysed();
    LowStates();
    hide Inv, InConflict, Analysed, LowConflict, BackTo;
    assert ClauseWf(Numbered(5), [Neg(1), Neg(2)]);
    NothingAtZero(LowConflict(), [Neg(1), Neg(2)]);
    TwoFreeLiterals(BackTo(Learn(LowConflict(), [Neg(1), Neg(2)]), 0).assign);
  }

  lemma LowAnalysed()
    ensures InRange(LowConflict()) && Analysed(LowConflict(), LOW_TABLE[1], [Neg(1), Neg(2)], 0, 1)
  {
    LowPair();
    LowStates();
    LowAnalysedAt(LowConflict(), LOW_TABLE[1]);
  }

  lemma LowAnalysedAt(s: State, conflict: Clause)
    requires PairLevel(s, conflict, 1) && conflict == [Neg(1), Neg(2), Neg(3)]
    requires s.trail == [0, 1, 2] && s.level == [1, 2, 2, 0, 0] && s.cur == 2 && |s.vars| == 5
    requires s.clauses == LOW_TABLE && s.reason == [None, None, Some(0), None, None]
    ensures Analysed(s, conflict, [Neg(1), Neg(2)], 0, 1)
  {
    assert conflict[0].id == 0 && conflict[1].id == 1;
    assert s.clauses[0] == [Neg(2), Pos(3)];
    hide InConflict, StopsAt, IsFrontier;
    PairUips(s, conflict, 1);
    PairFrontier(s, conflict, 1, [Neg(1), Neg(2)]);
    assert [Neg(1), Neg(2)][1].id == 1;
  }

  lemma TwoFreeLiterals(assign: seq<Assignment>)
    requires Free(assign, 0) && Free(assign, 1)
    ensures |UnassignedOf(assign, [Neg(1), Neg(2)])| == 2
  {
    var c := [Neg(1), Neg(2)];
    assert c[1..] == [Neg(2)];
    assert |UnassignedOf(assign, c[1..])| == 1;
  }

  lemma LowPair()
    ensures PairLevel(LowConflict(), LOW_TABLE[1], 1)
  {
    LowInv();
    LowStates();
    hide Inv, LowConflict;
    assert LOW_TABLE[1][2].id == 2;
    assert LowConflict().clauses[1] == LOW_TABLE[1];
  }

  lemma LowTurns(activity: seq<int>)
    requires activity == [3, 2, 2, 1, 1]
    ensures AllSettled(LowStart()) && FirstMostActive(LowStart().assign, activity, 0)
    ensures AllSettled(LowDecided()) && FirstMostActive(LowDecided().assign, activity, 1)
    ensures |LowDecidedTwice().clauses| == 4 && LowDecidedTwice().clauses[0] == LOW_TABLE[0]
    ensures LowDecidedTwice().clauses[1] == LOW_TABLE[1] && LowDecidedTwice().cur == 2
    ensures ScanOf(LowConflict().assign, LOW_TABLE[1]) == Clash
  {
    LowStates();
    LowMostActive(activity);
    hide FirstMostActive;
    LowSettled(LowStart());
    LowSettled(LowDecided());
    LowClashes();
  }

  lemma LowMostActive(activity: seq<int>)
    requires activity == [3, 2, 2, 1, 1]
    ensures FirstMostActive([NotAssigned, NotAssigned, NotAssigned, NotAssigned, NotAssigned], activity, 0)
    ensures FirstMostActive([On, NotAssigned, NotAssigned, NotAssigned, NotAssigned], activity, 1)
  {
  }

  lemma LowClashes()
    ensures ScanOf(LowConflict().assign, LOW_TABLE[1]) == Clash
  {
    LowPair();
    hide ScanOf;
    assert LowConflict().clauses[1] == LOW_TABLE[1];
    ScanMeaning(LowConflict(), 1);
  }

  lemma LowOutcome(t: State)
    requires LearnedFrom(LowConflict(), t, 1)
    ensures InRange(Learn(LowConflict(), [Neg(1), Neg(2)]))
    ensures t == BackTo(Learn(LowConflict(), [Neg(1), Neg(2)]), 0)
  {
    LowInv();
    LowAnalysed();
    assert LowConflict().clauses[1] == LOW_TABLE[1];
    hide LearnedFrom, Analysed, LowConflict;
    LearnedIs(LowConflict(), t, 1, [Neg(1), Neg(2)], 0, 1);
  }

  // The solver does meet that conflict: three turns from a fresh context.
  method LowRun() returns (context: Context)
    ensures fresh(context) && context.Valid() && context.model == ModelOf(5, LOW_TABLE, DEFAULT_CONFIGURATION)
    ensures InRange(Learn(LowConflict(), [Neg(1), Neg(2)]))
    ensures context.View() == BackTo(Learn(LowConflict(), [Neg(1), Neg(2)]), 0)
  {
    hide Inv, AllSettled, BackTo, FirstMostActive, ScanOf, LearnedFrom, Context.Sound, Imply;
    hide LowConflict, SignedTable, Counts;
    LowTable();
    context := Load(5, LOW_TABLE, DEFAULT_CONFIGURATION);
    LowCounts();
    LowTurns(context.activity);
    LowInv();
    TurnSettled(context, 0);
    TurnSettled(context, 1);
    TurnClash(context, 0);
    LowOutcome(context.View());
  }

  // ---- Two conflicts after one decision ----

  // The first clause is (-1 2); the second is false once 1 and 2 are on.
  ghost predicate ShortTable(n: nat, table: seq<Clause>) {
    && n >= 2 && TableOver(n, table) && |table| >= 2
    && table[0] == [Neg(1), Pos(2)] && (table[1] == [Neg(2), Neg(2)] || table[1] == [Neg(1), Neg(2)])
    && AllSettled(Fresh(Numbered(n), table))
  }

  function ShortDecided(n: nat, table: seq<Clause>): State
    requires n >= 1
  {
    Decide(Fresh(Numbered(n), table), 0)
  }

  // The decision is 1; then 2 follows and the second clause is false.
  function ShortConflict(n: nat, table: seq<Clause>): State
    requires n >= 2
  {
    PropagateLit(ShortDecided(n, table), 0, Pos(2))
  }

  lemma ShortStates(n: nat, table: seq<Clause>)
    requires n >= 2 && |table| >= 2
    ensures var s := ShortConflict(n, table);
      && s.trail == [0, 1] && s.clauses == table && |s.vars| == |s.assign| == |s.level| == |s.reason| == n
      && s.assign[0] == s.assign[1] == On && s.level[0] == s.level[1] == s.cur == 1
      && s.reason[0] == None && s.reason[1] == Some(0)
  {
  }

  lemma {:induction false} ShortUnit(assign: seq<Assignment>)
    requires |assign| >= 2 && assign[0] == On && assign[1] == NotAssigned
    ensures UnassignedOf(assign, [Neg(1), Pos(2)]) == [Pos(2)] && !ClauseSatisfied(assign, [Neg(1), Pos(2)])
  {
    var c := [Neg(1), Pos(2)];
    assert c[1..] == [Pos(2)] && c[1..][1..] == [];
  }

  lemma ShortInv(n: nat, table: seq<Clause>)
    requires ShortTable(n, table)
    ensures Inv(ShortDecided(n, table)) && Inv(ShortConflict(n, table)) && Shaped(ShortDecided(n, table))
    ensures ScanOf(ShortDecided(n, table).assign, table[0]) == Implied
    ensures Imply(ShortDecided(n, table), 0) == ShortConflict(n, table)
  {
    FreshInv(Numbered(n), table);
    ShortUnit(ShortDecided(n, table).assign);
    hide Inv, AllSettled, TableOver;
    DecideKeeps(Fresh(Numbered(n), table), 0);
    var p := ImplyPropagates(ShortDecided(n, table), 0);
    PropagateKeeps(ShortDecided(n, table), 0, p);
  }

  lemma ShortPair(n: nat, table: seq<Clause>)
    requires ShortTable(n, table)
    ensures PairLevel(ShortConflict(n, table), table[1], 0)
  {
    ShortInv(n, table);
    ShortStates(n, table);
    hide Inv, AllSettled, TableOver, ShortConflict;
    var s := ShortConflict(n, table);
    assert s.clauses[1] == table[1] && table[1][1].id == 1;
    assert Falsified(s.assign, table[1]);
  }

  lemma ShortClashes(n: nat, table: seq<Clause>)
    requires ShortTable(n, table)
    ensures ScanOf(ShortConflict(n, table).assign, table[1]) == Clash
  {
    ShortPair(n, table);
    hide ScanOf;
    assert ShortConflict(n, table).clauses[1] == table[1];
    ScanMeaning(ShortConflict(n, table), 1);
  }

  lemma ShortAnalysed(n: nat, table: seq<Clause>)
    requires ShortTable(n, table)
    ensures InRange(ShortConflict(n, table)) && Analysed(ShortConflict(n, table), table[1], [Neg(1)], 0, 0)
  {
    ShortPair(n, table);
    ShortStates(n, table);
    hide ShortConflict, AllSettled, TableOver, PairLevel, Analysed;
    ShortAnalysedAt(ShortConflict(n, table), table[1]);
  }

  lemma ShortAnalysedAt(s: State, conflict: Clause)
    requires PairLevel(s, conflict, 0) && s.trail == [0, 1] && s.cur == 1
    requires |s.level| >= 2 && s.level[0] == s.level[1] == 1 && |s.reason| >= 2 && s.reason[1] == Some(0)
    requires |s.clauses| >= 1 && s.clauses[0] == [Neg(1), Pos(2)]
    requires conflict == [Neg(2), Neg(2)] || conflict == [Neg(1), Neg(2)]
    ensures Analysed(s, conflict, [Neg(1)], 0, 0)
  {
    ShortStops(s, conflict);
    ShortFrontier(s, conflict);
    hide InConflict, StopsAt, IsFrontier;
    assert [Neg(1)][0].id == 0;
  }

  lemma ShortFrontier(s: State, conflict: Clause)
    requires PairLevel(s, conflict, 0) && s.trail == [0, 1]
    requires |s.reason| >= 2 && s.reason[1] == Some(0) && |s.clauses| >= 1 && s.clauses[0] == [Neg(1), Pos(2)]
    requires conflict == [Neg(2), Neg(2)] || conflict == [Neg(1), Neg(2)]
    ensures IsFrontier(s, conflict, 0, [Neg(1)])
  {
    assert ReasonAt(s, 1) == [Neg(1), Pos(2)];
    hide InConflict, IsFrontier, ReasonAt;
    PairFrontier(s, conflict, 0, [Neg(1)]);
  }

  lemma ShortStops(s: State, conflict: Clause)
    requires PairLevel(s, conflict, 0) && s.trail == [0, 1]
    requires conflict == [Neg(2), Neg(2)] || conflict == [Neg(1), Neg(2)]
    ensures StopsAt(s, conflict, 0)
  {
    PairUips(s, conflict, 0);
    hide StopsAt, InConflict;
    assert conflict[0].id == 0 || (conflict[0].id == 1 && conflict[1].id == 1);
  }

  lemma ShortOutcome(n: nat, table: seq<Clause>, t: State)
    requires ShortTable(n, table) && LearnedFrom(ShortConflict(n, table), t, 1)
    ensures InRange(Learn(ShortConflict(n, table), [Neg(1)]))
    ensures t == BackTo(Learn(ShortConflict(n, table), [Neg(1)]), 0)
    ensures |ShortConflict(n, table).clauses| == |table| < |t.clauses| && t.clauses[|table|] == [Neg(1)]
  {
    ShortInv(n, table);
    ShortAnalysed(n, table);
    assert ShortConflict(n, table).clauses[1] == table[1];
    hide LearnedFrom, Analysed, ShortConflict, ShortTable;
    LearnedIs(ShortConflict(n, table), t, 1, [Neg(1)], 0, 0);
  }

  // The solver meets the conflict in two turns if no variable occurs more often than 1.
  method ShortRun(n: nat, table: seq<Clause>, conf: Configuration) returns (context: Context)
    requires ShortTable(n, table) && ConfigurationWf(conf) && conf.restartThreshold > 0
    requires forall v :: 0 < v < n ==> Counts(n, table)[v] <= Counts(n, table)[0]
    ensures fresh(context) && context.Valid() && context.model == ModelOf(n, table, conf)
    ensures InRange(Learn(ShortConflict(n, table), [Neg(1)]))
    ensures context.View() == BackTo(Learn(ShortConflict(n, table), [Neg(1)]), 0)
    ensures context.config == conf && context.conflictsSinceRestart == 1 && context.statistics.conflicts == 1
    ensures ActivityBumped(Counts(n, table), context.activity, [Neg(1)], conf, 1)
  {
    hide Inv, AllSettled, BackTo, ScanOf, LearnedFrom, Context.Sound, Imply, ShortConflict, SignedTable, Counts;
    hide ActivityBumped;
    context := Load(n, table, conf);
    assert FirstMostActive(context.assignment, context.activity, 0);
    hide FirstMostActive;
    TurnSettled(context, 0);
    ShortInv(n, table);
    ShortClashes(n, table);
    TurnClash(context, 0);
    ShortOutcome(n, table, context.View());
  }

  // ---- A propagated literal repeated in the conflict clause ----

  function RepeatedTable(): seq<Clause> {
    [[Neg(1), Pos(2)], [Neg(2), Neg(2)], [Pos(1), Pos(3)], [Pos(1), Pos(4)], [Pos(1), Pos(5)]]
  }

  lemma RepeatedShort()
    ensures ShortTable(5, RepeatedTable()) && RepeatedTable()[1] == [Neg(2), Neg(2)]
  {
    assert TableOver(5, RepeatedTable());
    var s := Fresh(Numbered(5), RepeatedTable());
    forall i | 0 <= i < 5 ensures Settled(s.assign, RepeatedTable()[i]) {
      FreePair(s.assign, RepeatedTable()[i], 0, 1);
    }
  }

  lemma RepeatedCounts()
    ensures Counts(5, RepeatedTable()) == [4, 3, 1, 1, 1]
  {
    var a, b, c, d, e := [Literal(-1), Literal(2)], [Literal(-2), Literal(-2)],
                         [Literal(1), Literal(3)], [Literal(1), Literal(4)], [Literal(1), Literal(5)];
    assert Signed(RepeatedTable()[0]) == a && Signed(RepeatedTable()[1]) == b && Signed(RepeatedTable()[2]) == c;
    assert Signed(RepeatedTable()[3]) == d && Signed(RepeatedTable()[4]) == e;
    assert SignedTable(RepeatedTable()) == [a, b, c, d, e];
    hide SignedTable, Signed;
    forall x: nat ensures Occurrences([a, b, c, d, e], x) ==
      if x == 1 then 4 else if x == 2 then 3 else if 3 <= x <= 5 then 1 else 0
    {
      OccurrencesFive(a, b, c, d, e, x);
      OccurrencesFour(a, b, c, d, x);
      OccurrencesThree(a, b, c, x);
      OccurrencesPair(Literal(-1), Literal(2), x);
      OccurrencesPair(Literal(-2), Literal(-2), x);
      OccurrencesPair(Literal(1), Literal(3), x);
      OccurrencesPair(Literal(1), Literal(4), x);
      OccurrencesPair(Literal(1), Literal(5), x);
    }
  }

  // The first unique implication point is the propagated variable 2, at position 1; the
  // analysis resolves past it and stops at the decision.
  lemma RepetitionMissesFirstUip()
    ensures InConflict(ShortConflict(5, RepeatedTable()), RepeatedTable()[1])
    ensures IsFirstUip(ShortConflict(5, RepeatedTable()), RepeatedTable()[1], 1)
    ensures Analysed(ShortConflict(5, RepeatedTable()), RepeatedTable()[1], [Neg(1)], 0, 0)
  {
    hide InConflict, Analysed, IsFirstUip, ShortConflict, RepeatedTable, TableOver, AllSettled;
    RepeatedShort();
    ShortPair(5, RepeatedTable());
    ShortAnalysed(5, RepeatedTable());
    ShortStates(5, RepeatedTable());
    RepeatedUips(ShortConflict(5, RepeatedTable()), RepeatedTable()[1]);
  }

  lemma RepeatedUips(s: State, conflict: Clause)
    requires PairLevel(s, conflict, 0) && s.trail == [0, 1] && conflict == [Neg(2), Neg(2)]
    ensures IsFirstUip(s, conflict, 1)
  {
    assert !OccursIn(conflict, 0);
    hide InConflict, IsUip;
    PairUips(s, conflict, 0);
  }

  // The solver does meet that conflict.
  method RepeatedRun() returns (context: Context)
    ensures fresh(context) && context.Valid() && context.model == ModelOf(5, RepeatedTable(), DEFAULT_CONFIGURATION)
    ensures InRange(Learn(ShortConflict(5, RepeatedTable()), [Neg(1)]))
    ensures context.View() == BackTo(Learn(ShortConflict(5, RepeatedTable()), [Neg(1)]), 0)
  {
    hide ShortTable, ShortConflict, SignedTable, Counts, RepeatedTable, ActivityBumped;
    RepeatedShort();
    RepeatedCounts();
    context := ShortRun(5, RepeatedTable(), DEFAULT_CONFIGURATION);
  }

  // ---- A learned clause with the literals of a table clause ----

  function SameTable(): seq<Clause> { [[Neg(1), Pos(2)], [Neg(1), Neg(2)], [Neg(1), Neg(1)]] }

  lemma SameShort()
    ensures ShortTable(2, SameTable()) && |SameTable()| == 3 && SameTable()[2] == [Neg(1), Neg(1)]
  {
    var s := Fresh(Numbered(2), SameTable());
    forall i | 0 <= i < 3 ensures Settled(s.assign, SameTable()[i]) {
      FreePair(s.assign, SameTable()[i], 0, 1);
    }
  }

  lemma SameCounts()
    ensures Counts(2, SameTable()) == [4, 2]
  {
    var a, b, c := [Literal(-1), Literal(2)], [Literal(-1), Literal(-2)], [Literal(-1), Literal(-1)];
    assert Signed(SameTable()[0]) == a && Signed(SameTable()[1]) == b && Signed(SameTable()[2]) == c;
    assert SignedTable(SameTable()) == [a, b, c];
    hide SignedTable, Signed;
    forall x: nat ensures Occurrences([a, b, c], x) == if x == 1 then 4 else if x == 2 then 2 else 0 {
      OccurrencesThree(a, b, c, x);
      OccurrencesPair(Literal(-1), Literal(2), x);
      OccurrencesPair(Literal(-1), Literal(-2), x);
      OccurrencesPair(Literal(-1), Literal(-1), x);
    }
  }

  // The learned clause (-1) has the literals of the third clause, which repeats the
  // implication point's variable.
  lemma LearnsKnownLiterals()
    ensures InConflict(ShortConflict(2, SameTable()), SameTable()[1])
    ensures Analysed(ShortConflict(2, SameTable()), SameTable()[1], [Neg(1)], 0, 0)
    ensures LitSet(SameTable()[2]) == LitSet([Neg(1)])
    ensures Repeated(SameTable()[2], ShortConflict(2, SameTable()).trail[0])
  {
    hide ShortConflict, InConflict, Analysed, SameTable, TableOver, AllSettled;
    SameShort();
    ShortPair(2, SameTable());
    ShortAnalysed(2, SameTable());
    ShortStates(2, SameTable());
    var c := SameTable()[2];
    assert c[0].id == 0 && c[1].id == 0;
    assert [Neg(1)][0] == Neg(1) && c[0] == Neg(1);
  }

  // The solver does meet that conflict.
  method SameRun() returns (context: Context)
    ensures fresh(context) && context.Valid() && context.model == ModelOf(2, SameTable(), DEFAULT_CONFIGURATION)
    ensures InRange(Learn(ShortConflict(2, SameTable()), [Neg(1)]))
    ensures context.View() == BackTo(Learn(ShortConflict(2, SameTable()), [Neg(1)]), 0)
  {
    hide ShortTable, ShortConflict, SignedTable, Counts, SameTable, ActivityBumped;
    SameShort();
    SameCounts();
    context := ShortRun(2, SameTable(), DEFAULT_CONFIGURATION);
  }
}
