// Binding a model's clauses to the variable table (the `solver_context` constructor).
module Loading {
  import opened Basics
  import opened Cnf
  import opened Clauses
  import opened Search
  import opened Watcher
  import opened SolverContext

  // The two assertions of the debug build that loading can fail.
  datatype LoadError = UndeclaredLiteral | EmptyClause

  datatype Indexed = Indexed(table: seq<Clause>, activity: seq<int>, watchers: seq<Watch>)

  // The first declared variable that a literal names, whatever its sign.
  function FindVariable(vars: seq<Literal>, l: Literal): (r: Option<nat>)
    ensures r.None? <==> !Declares(vars, l)
    ensures r.Some? ==> r.value < |vars| && vars[r.value].SameVariable(l)
    ensures r.Some? ==> forall v :: 0 <= v < r.value ==> !vars[v].SameVariable(l)
  {
    if vars == [] then None
    else if vars[0].SameVariable(l) then Some(0)
    else
      assert forall v :: 0 < v < |vars| ==> vars[v] == vars[1..][v - 1];
      assert forall v :: 0 <= v < |vars[1..]| ==> vars[1..][v] == vars[v + 1];
      var r := FindVariable(vars[1..], l);
      if r.None? then None else Some(r.value + 1)
  }

  ghost predicate ClauseLoads(vars: seq<Literal>, c: seq<Literal>) {
    c != [] && forall j :: 0 <= j < |c| ==> Declares(vars, c[j])
  }

  function OccurrencesIn(c: seq<Literal>, x: nat): nat {
    if c == [] then 0
    else OccurrencesIn(c[..|c| - 1], x) + (if c[|c| - 1].Value() == x then 1 else 0)
  }

  function Occurrences(clauses: seq<seq<Literal>>, x: nat): nat {
    if clauses == [] then 0
    else Occurrences(clauses[..|clauses| - 1], x) + OccurrencesIn(clauses[|clauses| - 1], x)
  }

  // The positions of the clause, or of the clauses, that hold variable x.
  ghost function PlacesIn(c: seq<Literal>, x: nat): set<nat> { set j | 0 <= j < |c| && c[j].Value() == x }

  ghost function Places(clauses: seq<seq<Literal>>, x: nat): set<(nat, nat)> {
    set i, j | 0 <= i < |clauses| && 0 <= j < |clauses[i]| && clauses[i][j].Value() == x :: (i, j)
  }

  lemma {:induction false} OccurrencesInCount(c: seq<Literal>, x: nat)
    ensures OccurrencesIn(c, x) == |PlacesIn(c, x)|
  {
    if c == [] {
      assert PlacesIn(c, x) == {};
    } else {
      var n := |c| - 1;
      OccurrencesInCount(c[..n], x);
      assert PlacesIn(c, x) == PlacesIn(c[..n], x) + (if c[n].Value() == x then {n} else {});
    }
  }

  lemma {:induction false} OccurrencesCount(clauses: seq<seq<Literal>>, x: nat)
    ensures Occurrences(clauses, x) == |Places(clauses, x)|
  {
    if clauses == [] {
      assert Places(clauses, x) == {};
    } else {
      var n := |clauses| - 1;
      OccurrencesCount(clauses[..n], x);
      OccurrencesInCount(clauses[n], x);
      var last := Tagged(PlacesIn(clauses[n], x), n);
      TaggedSize(PlacesIn(clauses[n], x), n);
      assert Places(clauses, x) == Places(clauses[..n], x) + last;
      assert Places(clauses[..n], x) !! last;
    }
  }

  ghost function Tagged(s: set<nat>, n: nat): set<(nat, nat)> { set j | j in s :: (n, j) }

  lemma {:induction false} TaggedSize(s: set<nat>, n: nat)
    ensures |Tagged(s, n)| == |s|
  {
    if s == {} {
      assert Tagged(s, n) == {};
    } else {
      var j :| j in s;
      TaggedSize(s - {j}, n);
      assert Tagged(s, n) == Tagged(s - {j}, n) + {(n, j)};
    }
  }

  function Unassigned(n: nat): seq<Assignment> { seq(n, _ => NotAssigned) }

  ghost predicate IndexedWf(vars: seq<Literal>, clauses: seq<seq<Literal>>, ix: Indexed) {
    && |ix.table| == |ix.watchers| == |clauses|
    && |ix.activity| == |vars|
    && (forall i :: 0 <= i < |clauses| ==>
         ix.table[i] != [] && ClauseWf(vars, ix.table[i]) && Mirrors(ix.table[i], clauses[i]))
    && (forall i :: 0 <= i < |clauses| ==> ix.watchers[i] == Select(Unassigned(|vars|), ix.table[i]))
    && (forall v :: 0 <= v < |vars| ==> ix.activity[v] == Occurrences(clauses, vars[v].Value()))
  }

  // The indexed clause says what the signed clause says.
  lemma MirrorsEvaluates(c: Clause, m: seq<Literal>, tau: Valuation)
    requires Mirrors(c, m)
    ensures SatisfiesBound(tau, c) <==> SatisfiesClause(tau, m)
  {
    if SatisfiesBound(tau, c) {
      var p :| 0 <= p < |c| && Holds(tau, c[p].lit);
      assert Holds(tau, m[p]);
    }
    if SatisfiesClause(tau, m) {
      var p :| 0 <= p < |m| && Holds(tau, m[p]);
      assert Holds(tau, c[p].lit);
    }
  }

  lemma IndexedEvaluates(vars: seq<Literal>, clauses: seq<seq<Literal>>, ix: Indexed, tau: Valuation)
    requires IndexedWf(vars, clauses, ix)
    ensures SatisfiesTable(tau, ix.table) <==> Satisfies(tau, clauses)
  {
    forall i | 0 <= i < |clauses| ensures SatisfiesBound(tau, ix.table[i]) <==> SatisfiesClause(tau, clauses[i]) {
      MirrorsEvaluates(ix.table[i], clauses[i], tau);
    }
  }

  // Binds one clause, counting its literals into the activities.
  method IndexClause(vars: seq<Literal>, m: seq<Literal>, activity: seq<int>)
    returns (r: Result<Clause, LoadError>, activity': seq<int>)
    requires VariablesWf(vars) && |activity| == |vars|
    ensures r.Ok? <==> forall j :: 0 <= j < |m| ==> Declares(vars, m[j])
    ensures r.Err? ==> r.error == UndeclaredLiteral
    ensures r.Ok? ==> ClauseWf(vars, r.value) && Mirrors(r.value, m)
    ensures |activity'| == |vars|
    ensures r.Ok? ==> forall v :: 0 <= v < |vars| ==> activity'[v] == activity[v] + OccurrencesIn(m, vars[v].Value())
    ensures r.Ok? ==> forall v :: 0 <= v < |vars| ==>
      activity'[v] == activity[v] + |PlacesIn(m, vars[v].Value())|
  {
    var c: Clause := [];
    activity' := activity;
    for j := 0 to |m|
      invariant |activity'| == |vars| && |c| == j
      invariant forall i :: 0 <= i < j ==> Declares(vars, m[i]) && c[i].lit == m[i] && BoundWf(vars, c[i])
      invariant forall v :: 0 <= v < |vars| ==> activity'[v] == activity[v] + OccurrencesIn(m[..j], vars[v].Value())
    {
      assert m[..j + 1][..j] == m[..j];
      var it := FindVariable(vars, m[j]);
      if it.None? { return Err(UndeclaredLiteral), activity'; }
      activity' := activity'[it.value := activity'[it.value] + 1];
      c := c + [Bound(m[j], it.value)];
    }
    assert m[..|m|] == m;
    forall v | 0 <= v < |vars| ensures OccurrencesIn(m, vars[v].Value()) == |PlacesIn(m, vars[v].Value())| {
      OccurrencesInCount(m, vars[v].Value());
    }
    r := Ok(c);
  }

  ghost predicate FirstBad(model: Model, i: int) {
    && 0 <= i < |model.clauses|
    && !ClauseLoads(model.literals, model.clauses[i])
    && forall j :: 0 <= j < i ==> ClauseLoads(model.literals, model.clauses[j])
  }

  // The first clause that does not load is empty, or names an undeclared variable.
  ghost predicate Reports(model: Model, error: LoadError) {
    exists i :: FirstBad(model, i) && error == if model.clauses[i] == [] then EmptyClause else UndeclaredLiteral
  }

  // Loads clause after clause; the first one that is empty or names an undeclared variable
  // decides the error.
  method IndexClauses(model: Model) returns (r: Result<Indexed, LoadError>)
    requires VariablesWf(model.literals)
    ensures r.Ok? <==> forall i :: 0 <= i < |model.clauses| ==> ClauseLoads(model.literals, model.clauses[i])
    ensures r.Ok? ==> IndexedWf(model.literals, model.clauses, r.value)
    ensures r.Err? ==> Reports(model, r.error)
  {
    hide IndexedWf, Occurrences, OccurrencesIn, ClauseWf, Mirrors, Select, Unassigned;
    var vars := model.literals;
    IndexedEmpty(vars);
    var ix := Indexed([], seq(|vars|, _ => 0), []);
    for i := 0 to |model.clauses|
      invariant IndexedWf(vars, model.clauses[..i], ix)
      invariant forall j :: 0 <= j < i ==> ClauseLoads(vars, model.clauses[j])
    {
      IndexedShape(vars, model.clauses[..i], ix);
      var m := model.clauses[i];
      var c, activity := IndexClause(vars, m, ix.activity);
      if c.Err? {
        assert FirstBad(model, i);
        return Err(c.error);
      }
      if m == [] {
        assert FirstBad(model, i);
        return Err(EmptyClause);
      }
      var ix' := Indexed(ix.table + [c.value], activity, ix.watchers + [Select(Unassigned(|vars|), c.value)]);
      IndexedGrows(vars, model.clauses[..i], ix, m, c.value, activity, ix');
      assert model.clauses[..i + 1] == model.clauses[..i] + [m];
      ix := ix';
    }
    assert model.clauses[..|model.clauses|] == model.clauses;
    r := Ok(ix);
  }

  lemma IndexedEmpty(vars: seq<Literal>)
    ensures IndexedWf(vars, [], Indexed([], seq(|vars|, _ => 0), []))
  {
  }

  lemma IndexedShape(vars: seq<Literal>, clauses: seq<seq<Literal>>, ix: Indexed)
    requires IndexedWf(vars, clauses, ix)
    ensures |ix.activity| == |vars|
    ensures forall v :: 0 <= v < |vars| ==> ix.activity[v] == Occurrences(clauses, vars[v].Value())
  {
  }

  lemma IndexedGrows(
      vars: seq<Literal>, clauses: seq<seq<Literal>>, ix: Indexed, m: seq<Literal>, c: Clause, activity: seq<int>,
      ix': Indexed)
    requires IndexedWf(vars, clauses, ix) && m != [] && ClauseWf(vars, c) && Mirrors(c, m) && |activity| == |vars|
    requires forall v :: 0 <= v < |vars| ==> activity[v] == ix.activity[v] + OccurrencesIn(m, vars[v].Value())
    requires ix' == Indexed(ix.table + [c], activity, ix.watchers + [Select(Unassigned(|vars|), c)])
    ensures IndexedWf(vars, clauses + [m], ix')
  {
    assert (clauses + [m])[..|clauses|] == clauses;
  }

  // The context that a model starts with: nothing assigned, nothing learned.
  method MakeContext(model: Model) returns (r: Result<Context, LoadError>)
    requires VariablesWf(model.literals) && ConfigurationWf(model.conf)
    ensures r.Ok? <==> forall i :: 0 <= i < |model.clauses| ==> ClauseLoads(model.literals, model.clauses[i])
    ensures r.Err? ==> Reports(model, r.error)
    ensures r.Ok? ==> fresh(r.value) && r.value.Valid() && r.value.model == model
    ensures r.Ok? ==> r.value.View() == Fresh(model.literals, r.value.clauses) && |r.value.clauses| == |model.clauses|
    ensures r.Ok? ==> forall i :: 0 <= i < |model.clauses| ==>
      ClauseWf(model.literals, r.value.clauses[i]) && Mirrors(r.value.clauses[i], model.clauses[i])
    ensures r.Ok? ==> r.value.config == model.conf && |r.value.activity| == |model.literals|
    ensures r.Ok? ==> r.value.conflictsSinceRestart == 0 && r.value.statistics == Statistics(0, 0, 0, 0, 0, 0)
    ensures r.Ok? ==> forall v :: 0 <= v < |model.literals| ==>
      r.value.activity[v] == Occurrences(model.clauses, model.literals[v].Value())
    ensures r.Ok? ==> forall v :: 0 <= v < |model.literals| ==>
      r.value.activity[v] == |Places(model.clauses, model.literals[v].Value())|
  {
    var ix := IndexClauses(model);
    if ix.Err? { return Err(ix.error); }
    forall tau | Satisfies(tau, model.clauses) ensures SatisfiesTable(tau, ix.value.table) {
      IndexedEvaluates(model.literals, model.clauses, ix.value, tau);
    }
    forall v | 0 <= v < |model.literals|
      ensures ix.value.activity[v] == |Places(model.clauses, model.literals[v].Value())|
    {
      OccurrencesCount(model.clauses, model.literals[v].Value());
    }
    var context := new Context(model, ix.value.table, ix.value.activity, ix.value.watchers);
    r := Ok(context);
  }
}
