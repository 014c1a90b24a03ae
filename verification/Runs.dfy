// What whole runs of the search mean: what the trail implies, and what backtracking undoes.
module Runs {
  import opened Basics
  import opened Cnf
  import opened Clauses
  import opened Search

  // ---- The trail is forced by the clause table and the decisions ----

  // The valuation gives variable row v the value that the search has assigned to it.
  ghost predicate Agrees(s: State, tau: Valuation, v: nat) {
    && v < |s.vars| && v < |s.assign|
    && (s.assign[v] == On <==> tau(s.vars[v].Value()))
  }

  lemma HoldsWhenTrue(s: State, tau: Valuation, b: Bound)
    requires BoundWf(s.vars, b) && Agrees(s, tau, b.id)
    ensures LitTrue(s.assign, b) ==> Holds(tau, b.lit)
    ensures LitFalse(s.assign, b) ==> !Holds(tau, b.lit)
  {
  }

  // A valuation that satisfies the table and agrees with the decisions before position
  // `end` agrees with every assignment before `end`.
  lemma {:induction false} TrailForced(s: State, tau: Valuation, end: nat, i: nat)
    requires Graph(s) && SatisfiesTable(tau, s.clauses) && i < end <= |s.trail|
    requires forall d :: 0 <= d < end && IsDecisionAt(s, d) ==> Agrees(s, tau, s.trail[d])
    ensures Agrees(s, tau, s.trail[i])
    decreases i
  {
    if IsDecisionAt(s, i) {
    } else {
      assert Justified(s, i);
      var c := s.clauses[s.reason[s.trail[i]].value];
      var p :| UnitAt(s, c, i, p);
      assert SatisfiesBound(tau, c);
      var q :| 0 <= q < |c| && Holds(tau, c[q].lit);
      assert BoundWf(s.vars, c[q]);
      if q != p {
        assert c[q].id in s.trail[..i];
        var j :| 0 <= j < i && s.trail[..i][j] == c[q].id;
        TrailForced(s, tau, end, j);
        HoldsWhenTrue(s, tau, c[q]);
      }
    }
  }

  // Everything assigned at levels <= k follows from the table and the decisions of levels 1..k.
  lemma EntailedByDecisions(s: State, tau: Valuation, k: nat, i: nat)
    requires Graph(s) && SatisfiesTable(tau, s.clauses)
    requires forall d :: (0 <= d < |s.trail| && IsDecisionAt(s, d) && 1 <= s.level[s.trail[d]] <= k) ==>
      Agrees(s, tau, s.trail[d])
    requires i < |s.trail| && s.level[s.trail[i]] <= k
    ensures Agrees(s, tau, s.trail[i])
  {
    forall d | 0 <= d < i + 1 && IsDecisionAt(s, d) ensures Agrees(s, tau, s.trail[d]) {
      LevelsAscend(s, d, i);
      assert LevelStep(s, d);
    }
    TrailForced(s, tau, i + 1, i);
  }

  // A conflict with no decision in force: the table has no satisfying valuation.
  lemma LevelZeroConflict(s: State, i: nat, tau: Valuation)
    requires Graph(s) && Tied(s) && s.cur == 0
    requires i < |s.clauses| && Falsified(s.assign, s.clauses[i])
    ensures !SatisfiesTable(tau, s.clauses)
  {
    if SatisfiesTable(tau, s.clauses) {
      var c := s.clauses[i];
      assert SatisfiesBound(tau, c);
      var p :| 0 <= p < |c| && Holds(tau, c[p].lit);
      assert LitFalse(s.assign, c[p]) && BoundWf(s.vars, c[p]);
      var j :| 0 <= j < |s.trail| && s.trail[j] == c[p].id;
      forall d | 0 <= d < |s.trail| ensures !IsDecisionAt(s, d) {
        LevelsBounded(s, s.trail[d]);
        assert LevelStep(s, d);
      }
      EntailedByDecisions(s, tau, 0, j) by { LevelsBounded(s, c[p].id); }
      HoldsWhenTrue(s, tau, c[p]);
    }
  }

  // Once no variable is free, a settled table is a satisfied one.
  lemma FullIsSatisfied(s: State)
    requires InRange(s) && AllSettled(s) && forall v: nat :: !Free(s.assign, v)
    ensures forall i :: 0 <= i < |s.clauses| ==> ClauseSatisfied(s.assign, s.clauses[i])
  {
    forall i | 0 <= i < |s.clauses| ensures ClauseSatisfied(s.assign, s.clauses[i]) {
      assert Settled(s.assign, s.clauses[i]);
    }
  }

  // ---- Runs of propagations and decisions, and undoing them ----

  datatype Event = Propagated(c: nat, p: nat) | Decided(v: nat)

  ghost predicate Enabled(s: State, e: Event)
    requires InRange(s)
  {
    match e
    case Propagated(c, p) => CanPropagate(s, c, p)
    case Decided(v) => Free(s.assign, v)
  }

  ghost function Apply(s: State, e: Event): (t: State)
    requires InRange(s) && Enabled(s, e)
    ensures InRange(t)
  {
    match e
    case Propagated(c, p) => Propagate(s, c, p)
    case Decided(v) => Decide(s, v)
  }

  ghost predicate CanRun(s: State, events: seq<Event>)
    requires InRange(s)
    decreases |events|
  {
    events == [] || (Enabled(s, events[0]) && CanRun(Apply(s, events[0]), events[1..]))
  }

  ghost function Run(s: State, events: seq<Event>): (t: State)
    requires InRange(s) && CanRun(s, events)
    ensures InRange(t)
    decreases |events|
  {
    if events == [] then s else Run(Apply(s, events[0]), events[1..])
  }

  // The same search state. The level stored for an unassigned variable is left over from
  // an earlier assignment and means nothing.
  ghost predicate SameSearch(s: State, t: State) {
    && t.vars == s.vars && t.clauses == s.clauses
    && t.assign == s.assign && t.reason == s.reason && t.trail == s.trail && t.cur == s.cur
    && |t.level| == |s.level| == |s.assign|
    && forall v :: 0 <= v < |s.assign| && s.assign[v] != NotAssigned ==> t.level[v] == s.level[v]
  }

  // t extends s by assignments made above the level of s.
  ghost predicate Above(s: State, t: State) {
    && InRange(s) && InRange(t) && t.vars == s.vars && t.clauses == s.clauses
    && |s.trail| <= |t.trail| && t.trail[..|s.trail|] == s.trail && t.cur > s.cur
    && (forall i :: |s.trail| <= i < |t.trail| ==> t.level[t.trail[i]] > s.cur && Free(s.assign, t.trail[i]))
    && (forall v :: 0 <= v < |s.vars| && v !in t.trail[|s.trail|..] ==>
         && t.assign[v] == s.assign[v] && t.reason[v] == s.reason[v]
         && (s.assign[v] != NotAssigned ==> t.level[v] == s.level[v]))
  }

  lemma ExtendKeepsAbove(s: State, t: State, t': State, v: nat)
    requires Above(s, t) && InRange(t') && t'.vars == t.vars && t'.clauses == t.clauses && t'.cur > s.cur
    requires Free(t.assign, v) && t'.trail == t.trail + [v] && t'.level[v] > s.cur
    requires TrailExact(s)
    requires forall u :: 0 <= u < |t.vars| && u != v ==>
      t'.assign[u] == t.assign[u] && t'.level[u] == t.level[u] && t'.reason[u] == t.reason[u]
    requires forall i :: 0 <= i < |t.trail| ==> t.assign[t.trail[i]] != NotAssigned
    ensures Above(s, t')
  {
    var n := |s.trail|;
    assert t'.trail[n..] == t.trail[n..] + [v];
    assert t'.trail[..n] == s.trail;
    assert forall i :: n <= i < |t.trail| ==> t.trail[i] != v;
    assert v !in t.trail[n..] && Free(s.assign, v);
    forall u | 0 <= u < |s.vars| && u !in t'.trail[n..]
      ensures t'.assign[u] == s.assign[u] && t'.reason[u] == s.reason[u]
      ensures s.assign[u] != NotAssigned ==> t'.level[u] == s.level[u]
    {
      assert v in t'.trail[n..];
      assert u != v && u !in t.trail[n..];
    }
  }

  ghost predicate TrailAssigned(t: State)
    requires InRange(t)
  {
    forall i :: 0 <= i < |t.trail| ==> t.assign[t.trail[i]] != NotAssigned
  }

  lemma ApplyStaysAbove(s: State, t: State, e: Event)
    requires Above(s, t) && TrailExact(s) && TrailAssigned(t) && Enabled(t, e)
    ensures Above(s, Apply(t, e)) && TrailAssigned(Apply(t, e))
  {
    var t' := Apply(t, e);
    ExtendKeepsAbove(s, t, t', t'.trail[|t.trail|]);
  }

  lemma {:induction false} RunStaysAbove(s: State, t: State, events: seq<Event>)
    requires InRange(s) && InRange(t) && Above(s, t) && TrailExact(s) && TrailAssigned(t) && CanRun(t, events)
    ensures Above(s, Run(t, events))
    decreases |events|
  {
    hide Above, TrailAssigned, TrailExact, Apply, Enabled;
    if events == [] {
    } else {
      ApplyStaysAbove(s, t, events[0]);
      RunStaysAbove(s, Apply(t, events[0]), events[1..]);
    }
  }

  lemma PopStaysAbove(s: State, t: State)
    requires Inv(s) && Above(s, t) && |t.trail| > |s.trail|
    ensures Above(s, Pop(t)) && t.level[t.trail[|t.trail| - 1]] > s.cur
  {
    var n := |s.trail|;
    var v := t.trail[|t.trail| - 1];
    var t' := Pop(t);
    assert t'.trail[..n] == s.trail;
    assert t.trail[n..] == t'.trail[n..] + [v];
    assert s.reason[v] == None;
  }

  lemma NothingLeftAbove(s: State, t: State)
    requires Inv(s) && Above(s, t) && |t.trail| == |s.trail|
    ensures SameSearch(BackTo(t, s.cur), s)
  {
    var n := |s.trail|;
    assert t.trail == s.trail && t.trail[n..] == [];
    if n > 0 {
      assert s.trail[n - 1] in s.trail;
      assert t.level[t.trail[n - 1]] == s.cur;
    }
    assert forall v :: 0 <= v < |s.vars| ==> t.assign[v] == s.assign[v] && t.reason[v] == s.reason[v];
  }

  lemma {:induction false} BackToUndoes(s: State, t: State)
    requires Inv(s) && InRange(t) && Above(s, t) && |t.trail| >= |s.trail|
    ensures SameSearch(BackTo(t, s.cur), s)
    decreases |t.trail|
  {
    hide Inv, Above, SameSearch;
    if |t.trail| == |s.trail| {
      NothingLeftAbove(s, t);
    } else {
      PopStaysAbove(s, t);
      BackToUndoes(s, Pop(t));
    }
  }

  // Deciding, then any run of propagations and deeper decisions, then backtracking to the
  // level before the decision: nothing is left of any of it.
  lemma BacktrackUndoesRun(s: State, v: nat, events: seq<Event>)
    requires Inv(s) && Free(s.assign, v) && CanRun(Decide(s, v), events)
    ensures SameSearch(BackTo(Run(Decide(s, v), events), s.cur), s)
  {
    var t := Decide(s, v);
    assert t.trail[|s.trail|..] == [v];
    assert t.trail[..|s.trail|] == s.trail;
    forall i | 0 <= i < |t.trail| ensures t.assign[t.trail[i]] != NotAssigned {
      if i < |s.trail| { assert s.trail[i] in s.trail; }
    }
    RunStaysAbove(s, t, events);
    BackToUndoes(s, Run(t, events));
  }
}
