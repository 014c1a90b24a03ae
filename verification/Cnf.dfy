// Literals, propositional models, and what it means to satisfy them
// (`literal`, `model` and `solver_context::configuration` of the solver).
module Cnf {
  import opened Basics

  // A signed variable number. The solver's own equality and order on literals look at
  // the variable alone; here that relation is `SameVariable`.
  datatype Literal = Literal(raw: int) {
    function Value(): nat { if raw < 0 then -raw else raw }

    predicate IsOn() { raw > 0 }

    predicate IsOff() { raw < 0 }

    predicate SameVariable(other: Literal) { Value() == other.Value() }
  }

  // A total truth assignment to variable numbers.
  type Valuation = int -> bool

  ghost predicate Holds(tau: Valuation, l: Literal) {
    if l.IsOn() then tau(l.Value()) else l.IsOff() && !tau(l.Value())
  }

  ghost predicate SatisfiesClause(tau: Valuation, c: seq<Literal>) {
    exists i :: 0 <= i < |c| && Holds(tau, c[i])
  }

  ghost predicate Satisfies(tau: Valuation, clauses: seq<seq<Literal>>) {
    forall i :: 0 <= i < |clauses| ==> SatisfiesClause(tau, clauses[i])
  }

  ghost predicate Satisfiable(clauses: seq<seq<Literal>>) {
    exists tau :: Satisfies(tau, clauses)
  }

  datatype Configuration = Configuration(
    restartThreshold: uint32,
    restartMultiplier: uint32,
    vsidsIncrement: int,
    decayInterval: nat,
    vsidsDecayRatio: real)

  datatype Model = Model(literals: seq<Literal>, clauses: seq<seq<Literal>>, conf: Configuration)

  // The variables are numbered apart from zero and from each other.
  predicate VariablesWf(vars: seq<Literal>) {
    && (forall i :: 0 <= i < |vars| ==> vars[i].raw != 0)
    && (forall i, j :: 0 <= i < j < |vars| ==> vars[i].Value() != vars[j].Value())
  }

  predicate Declares(vars: seq<Literal>, l: Literal) {
    exists v :: 0 <= v < |vars| && vars[v].Value() == l.Value()
  }

  // A configuration whose divisions are defined.
  predicate ConfigurationWf(conf: Configuration) {
    conf.decayInterval >= 1 && conf.vsidsDecayRatio != 0.0
  }

  // ---- Results ----

  // The valuation that a result list denotes.
  ghost function ValuationOf(result: seq<Literal>): Valuation {
    x => Literal(x) in result
  }

  // One signed literal per variable, in the model's order, and together a satisfying valuation.
  ghost predicate Solves(model: Model, result: seq<Literal>) {
    && |result| == |model.literals|
    && (forall i :: 0 <= i < |result| ==> result[i].raw != 0 && result[i].SameVariable(model.literals[i]))
    && Satisfies(ValuationOf(result), model.clauses)
  }

  // Two satisfying valuations differ on a declared variable.
  ghost predicate Undetermined(model: Model) {
    exists tau, tau', v: nat ::
      && Satisfies(tau, model.clauses) && Satisfies(tau', model.clauses)
      && v < |model.literals| && tau(model.literals[v].Value()) != tau'(model.literals[v].Value())
  }
}
