// Whole runs of the search, as sequences of states: what every reachable state satisfies
// and why a run meets only finitely many conflicts.
module Reachability {
  import opened Cnf
  import opened Clauses
  import opened Search
  import opened Runs
  import opened Learning

  // Learned clauses included, the table says no more than the model.
  ghost predicate FollowsFrom(table: seq<Clause>, clauses: seq<seq<Literal>>) {
    forall tau :: Satisfies(tau, clauses) ==> SatisfiesTable(tau, table)
  }

  lemma LearnFollows(table: seq<Clause>, c: Clause, clauses: seq<seq<Literal>>)
    requires FollowsFrom(table, clauses) && Entails(table, c)
    ensures FollowsFrom(table + [c], clauses)
  {
  }

  lemma RestartKeeps(s: State)
    requires Inv(s)
    ensures InRange(s) && Inv(BackTo(s, 0)) && BackTo(s, 0).clauses == s.clauses && BackTo(s, 0).vars == s.vars
  {
    BackToKeeps(s, 0);
    BackToExact(s, 0);
  }

  // ---- The steps of the main loop ----

  ghost predicate Propagates(s: State, t: State) {
    InRange(s) && exists c, p :: CanPropagate(s, c, p) && t == Propagate(s, c, p)
  }

  ghost predicate Decides(s: State, t: State) {
    InRange(s) && AllSettled(s) && exists v: nat :: Free(s.assign, v) && t == Decide(s, v)
  }

  ghost predicate Learns(s: State, t: State) {
    s.cur >= 1 && exists i :: 0 <= i < |s.clauses| && Falsified(s.assign, s.clauses[i]) && LearnedFrom(s, t, i)
  }

  ghost predicate Restarts(s: State, t: State) {
    InRange(s) && t == BackTo(s, 0)
  }

  ghost predicate Next(s: State, t: State) {
    Propagates(s, t) || Decides(s, t) || Learns(s, t) || Restarts(s, t)
  }

  ghost predicate IsRun(run: seq<State>) {
    run != [] && forall i :: 0 <= i < |run| - 1 ==> Next(run[i], run[i + 1])
  }

  // The steps of the run up to state i that learn.
  ghost function LearnSteps(run: seq<State>, i: nat): set<nat>
    requires i < |run|
  {
    set j | 0 <= j < i && LearnsAt(run, j)
  }

  ghost predicate LearnsAt(run: seq<State>, j: nat) {
    j + 1 < |run| && Learns(run[j], run[j + 1])
  }

  lemma LearnsKeeps(s: State, t: State)
    requires Inv(s) && Learns(s, t)
    ensures Inv(t) && t.vars == s.vars && t.cur < s.cur
    ensures |Unknown(t.vars, t.clauses)| < |Unknown(s.vars, s.clauses)|
    ensures t.clauses == s.clauses + [t.clauses[|s.clauses|]] && Entails(s.clauses, t.clauses[|s.clauses|])
    ensures NewAmong(s.clauses, t.clauses[|s.clauses|])
  {
    hide Analysed, Inv, Entails, Unknown, NewAmong;
    var i :| 0 <= i < |s.clauses| && Falsified(s.assign, s.clauses[i]) && LearnedFrom(s, t, i);
    var learned := t.clauses[|s.clauses|];
    var k, u :| Analysed(s, s.clauses[i], learned, k, u) && t == BackTo(Learn(s, learned), k);
    ConflictLearned(s, i, learned, k, u);
  }

  // One step keeps the invariant and the meaning of the table, and never lets the set of
  // clauses that could still be learned grow.
  lemma NextKeeps(s: State, t: State, clauses: seq<seq<Literal>>, n: nat)
    requires Inv(s) && FollowsFrom(s.clauses, clauses) && LearnedApart(s.clauses, n) && Next(s, t)
    ensures Inv(t) && FollowsFrom(t.clauses, clauses) && LearnedApart(t.clauses, n) && t.vars == s.vars
    ensures |Unknown(t.vars, t.clauses)| + (if Learns(s, t) then 1 else 0) <= |Unknown(s.vars, s.clauses)|
  {
    hide Inv, FollowsFrom, AllSettled, Unknown, Learns, LearnedApart, NewAmong;
    if Learns(s, t) {
      LearnsKeeps(s, t);
      LearnFollows(s.clauses, t.clauses[|s.clauses|], clauses);
      ApartGrows(s.clauses, t.clauses[|s.clauses|], n);
    } else if Propagates(s, t) {
      var c, p :| CanPropagate(s, c, p) && t == Propagate(s, c, p);
      PropagateKeeps(s, c, p);
    } else if Decides(s, t) {
      var v: nat :| Free(s.assign, v) && t == Decide(s, v);
      DecideKeeps(s, v);
    } else {
      RestartKeeps(s);
    }
  }

  // Every state of every run satisfies the invariant, its table follows from the model, what
  // it has learned are different sets of literals, and the conflicts met so far are bounded
  // by the clauses there were left to learn.
  lemma {:induction false} RunKeeps(run: seq<State>, clauses: seq<seq<Literal>>, i: nat)
    requires IsRun(run) && Inv(run[0]) && FollowsFrom(run[0].clauses, clauses) && i < |run|
    ensures Inv(run[i]) && FollowsFrom(run[i].clauses, clauses) && run[i].vars == run[0].vars
    ensures LearnedApart(run[i].clauses, |run[0].clauses|)
    ensures |LearnSteps(run, i)| + |Unknown(run[0].vars, run[i].clauses)| <= |Unknown(run[0].vars, run[0].clauses)|
  {
    hide Inv, FollowsFrom, Unknown, Next, Learns, NewAmong;
    if i == 0 {
    } else {
      RunKeeps(run, clauses, i - 1);
      assert Next(run[i - 1], run[i - 1 + 1]);
      NextKeeps(run[i - 1], run[i], clauses, |run[0].clauses|);
      assert LearnSteps(run, i) ==
        LearnSteps(run, i - 1) + (if LearnsAt(run, i - 1) then {i - 1} else {});
    }
  }

  // ---- Runs end to end ----

  // Some run leads from s to t.
  ghost predicate Leads(s: State, t: State) {
    exists run :: IsRun(run) && run[0] == s && run[|run| - 1] == t
  }

  lemma LeadsSelf(s: State)
    ensures Leads(s, s)
  {
    assert IsRun([s]) && [s][0] == s;
  }

  lemma LeadsOn(s: State, t: State, u: State)
    requires Leads(s, t) && Leads(t, u)
    ensures Leads(s, u)
  {
    var a :| IsRun(a) && a[0] == s && a[|a| - 1] == t;
    var b :| IsRun(b) && b[0] == t && b[|b| - 1] == u;
    JoinRuns(a, b);
    var run := a + b[1..];
    assert run[0] == s && run[|run| - 1] == u;
  }

  lemma JoinRuns(a: seq<State>, b: seq<State>)
    requires IsRun(a) && IsRun(b) && a[|a| - 1] == b[0]
    ensures IsRun(a + b[1..])
  {
    hide Next;
    var run := a + b[1..];
    forall i | 0 <= i < |run| - 1 ensures Next(run[i], run[i + 1]) {
      if i < |a| - 1 {
        assert Next(a[i], a[i + 1]);
      } else {
        var j := i - (|a| - 1);
        assert run[i] == b[j] && run[i + 1] == b[j + 1];
        assert Next(b[j], b[j + 1]);
      }
    }
  }

  lemma LeadsNext(s: State, t: State, u: State)
    requires Leads(s, t) && Next(t, u)
    ensures Leads(s, u)
  {
    hide Next;
    assert IsRun([t, u]) && [t, u][0] == t && [t, u][|[t, u]| - 1] == u;
    LeadsOn(s, t, u);
  }

  // In every reachable state, what is assigned at levels <= k follows from the model and
  // the decisions of levels 1..k.
  lemma ReachableEntailed(run: seq<State>, clauses: seq<seq<Literal>>, i: nat, tau: Valuation, k: nat, j: nat)
    requires IsRun(run) && Inv(run[0]) && FollowsFrom(run[0].clauses, clauses) && i < |run|
    requires Satisfies(tau, clauses) && InRange(run[i]) && j < |run[i].trail| && run[i].level[run[i].trail[j]] <= k
    requires forall d ::
      (0 <= d < |run[i].trail| && IsDecisionAt(run[i], d) && 1 <= run[i].level[run[i].trail[d]] <= k) ==>
        Agrees(run[i], tau, run[i].trail[d])
    ensures Agrees(run[i], tau, run[i].trail[j])
  {
    RunKeeps(run, clauses, i);
    EntailedByDecisions(run[i], tau, k, j);
  }
}
