// The public face of the solver (`solver`), and the run of one CNF file.
module Solver {
  import opened Basics
  import opened Cnf
  import opened SolverContext
  import opened Thresholds
  import opened Loading
  import opened CnfFile

  class Solver {
    const context: Context

    constructor (context: Context)
      ensures this.context == context
    {
      this.context := context;
    }

    // Asks for up to `expected` results. Nothing rules out a result once found, and the
    // context is left where the search ended, so every result is the first one again.
    method Solve(expected: int) returns (r: Outcome<seq<seq<Literal>>>)
      requires context.Valid()
      modifies context
      ensures context.Valid()
      ensures r.Returns? && expected >= 1 && Satisfiable(context.model.clauses) ==> |r.value| == expected
      ensures r.Returns? && (expected < 1 || !Satisfiable(context.model.clauses)) ==> r.value == []
      ensures r.Returns? ==> forall i :: 0 <= i < |r.value| ==> Solves(context.model, r.value[i])
      ensures r.Returns? ==> forall i, j :: 0 <= i < j < |r.value| ==> r.value[i] == r.value[j]
      ensures r.NeverReturns? ==> expected >= 1 && context.Stuck() && context.Unlearned() == old(context.Unlearned())
      ensures old(context.Stuck()) && expected >= 1 ==> r.NeverReturns?
      ensures context.model.literals != [] && context.Outlives(context.Learnable() + old(context.Unlearned())) ==>
        r.Returns?
    {
      hide Solves, Satisfiable;
      hide Context.Valid, Context.Finished, Context.Stuck, Context.Outlives, Context.Learnable;
      hide Context.Vanishing, Context.Restarting, Context.Snap, Context.ReadsOff, Undetermined;
      var results: seq<seq<Literal>> := [];
      var i := 0;
      while i < expected
        invariant context.Valid()
        invariant |results| == i && i <= (if expected >= 1 then expected else 0)
        invariant i > 0 ==> context.Finished() && Satisfiable(context.model.clauses) && !old(context.Stuck())
        invariant i == 0 ==> context.Unlearned() == old(context.Unlearned()) && context.Stuck() == old(context.Stuck())
        invariant i > 0 ==> Solves(context.model, results[0]) && context.ReadsOff(results[0])
        invariant forall k :: 0 <= k < i ==> results[k] == results[0]
      {
        var found := context.SolveSat();
        if found.NeverReturns? { return NeverReturns; }
        if found.value.Err? { return Returns(results); }
        if i > 0 { context.ReadsOnce(results[0], found.value.value); }
        results := results + [found.value.value];
        i := i + 1;
      }
      return Returns(results);
    }
  }

  // What the file reader produces, the constructor accepts.
  lemma ModelLoads(lines: seq<Line>, model: Model)
    requires model.clauses == ClausesOf(lines) && model.conf == DEFAULT_CONFIGURATION
    requires OrderedSet(model.literals)
    requires forall x: nat :: x in VariablesOf(lines) <==> Literal(x) in model.literals
    ensures VariablesWf(model.literals) && ConfigurationWf(model.conf)
    ensures forall i :: 0 <= i < |model.clauses| ==> ClauseLoads(model.literals, model.clauses[i])
    ensures |model.literals| == |VariablesOf(lines)|
    ensures model.clauses != [] <==> model.literals != []
  {
    ClausesNonempty(lines);
    IncreasingCardinality(model.literals, VariablesOf(lines));
    forall i, j | 0 <= i < |model.clauses| && 0 <= j < |model.clauses[i]|
      ensures Declares(model.literals, model.clauses[i][j])
    {
      var x := ClausesOf(lines)[i][j].Value();
      assert x in VariablesOf(lines);
      var v :| 0 <= v < |model.literals| && model.literals[v] == Literal(x);
    }
    if model.clauses != [] {
      assert Declares(model.literals, model.clauses[0][0]);
    }
  }

  // One CNF file, from its lines to the answer: the first result, or nothing when the
  // clauses of the file cannot be satisfied together. Only a file without clauses, or with
  // more than sixteen variables, can keep the search from ending.
  method RunFile(lines: seq<Line>) returns (r: Outcome<Result<seq<seq<Literal>>, ParseError>>)
    ensures r.Returns? ==> (r.value.Ok? <==> Accepted(lines))
    ensures r.NeverReturns? ==> Accepted(lines) && (ClausesOf(lines) == [] || |VariablesOf(lines)| > 16)
    ensures Accepted(lines) && ClausesOf(lines) == [] ==> r.NeverReturns?
    ensures r.Returns? && r.value.Ok? ==>
      (r.value.value == [] <==> !Satisfiable(ClausesOf(lines))) && |r.value.value| <= 1
    ensures r.Returns? && r.value.Ok? && r.value.value != [] ==>
      |r.value.value[0]| == |VariablesOf(lines)| && Satisfies(ValuationOf(r.value.value[0]), ClausesOf(lines))
  {
    var model := MakeModel(lines);
    if model.Err? { return Returns(Err(model.error)); }
    ModelLoads(lines, model.value);
    var context := MakeContext(model.value);
    var solver := new Solver(context.value);
    var results := solver.Solve(1);
    if results.NeverReturns? {
      SearchIsShort(context.value);
      return NeverReturns;
    }
    r := Returns(Ok(results.value));
  }

  // A stuck search under the default configuration has learned more clauses than sixteen
  // variables allow.
  lemma SearchIsShort(context: Context)
    requires context.Valid() && context.Stuck() && context.Unlearned() == 0
    requires context.model.conf == DEFAULT_CONFIGURATION
    ensures context.model.literals == [] || |context.model.literals| > 16
  {
    var n := |context.model.literals|;
    if context.model.literals != [] && n <= 16 {
      hide Threshold, Waited, TwoTo;
      context.StuckTakesLong();
      DefaultVanishes(30);
      WaitedSettles(100, 2, 30);
      SixteenAreFew(n);
      assert false;
    }
  }
}
