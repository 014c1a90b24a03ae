// The state of the search (`solver_context`) as a value: the invariant that every
// step keeps, and the steps themselves.
module Search {
  import opened Basics
  import opened Cnf
  import opened Clauses

  datatype State = State(
    vars: seq<Literal>,
    clauses: seq<Clause>,
    assign: seq<Assignment>,
    level: seq<nat>,
    reason: seq<Option<nat>>,
    trail: seq<nat>,
    cur: nat)

  // ---- The invariant ----

  ghost predicate InRange(s: State) {
    && |s.assign| == |s.level| == |s.reason| == |s.vars|
    && (forall i :: 0 <= i < |s.trail| ==> s.trail[i] < |s.vars|)
  }

  ghost predicate TableWf(s: State) {
    && VariablesWf(s.vars)
    && (forall i :: 0 <= i < |s.clauses| ==> s.clauses[i] != [] && ClauseWf(s.vars, s.clauses[i]))
  }

  // The trail lists exactly the assigned variables, once each.
  ghost predicate TrailExact(s: State)
    requires InRange(s)
  {
    && (forall i, j :: 0 <= i < j < |s.trail| ==> s.trail[i] != s.trail[j])
    && (forall v :: 0 <= v < |s.vars| ==> (s.assign[v] != NotAssigned <==> v in s.trail))
    && (forall v :: 0 <= v < |s.vars| && s.assign[v] == NotAssigned ==> s.reason[v] == None)
  }

  // The level in force just before trail position i.
  ghost function LevelBefore(s: State, i: nat): nat
    requires InRange(s) && i <= |s.trail|
  {
    if i == 0 then 0 else s.level[s.trail[i - 1]]
  }

  ghost predicate IsDecisionAt(s: State, i: nat)
    requires InRange(s)
  {
    i < |s.trail| && s.reason[s.trail[i]] == None
  }

  // A decision opens the next level; a propagation stays on the level it is made at.
  ghost predicate LevelStep(s: State, i: nat)
    requires InRange(s) && i < |s.trail|
  {
    s.level[s.trail[i]] == LevelBefore(s, i) + (if IsDecisionAt(s, i) then 1 else 0)
  }

  // In clause c, position p is the true literal of the variable at trail position i and
  // every other literal is false and was assigned earlier.
  ghost predicate UnitAt(s: State, c: Clause, i: nat, p: nat)
    requires InRange(s) && i < |s.trail|
  {
    && p < |c|
    && c[p].id == s.trail[i]
    && LitTrue(s.assign, c[p])
    && forall q :: 0 <= q < |c| && q != p ==> LitFalse(s.assign, c[q]) && c[q].id in s.trail[..i]
  }

  ghost predicate Justified(s: State, i: nat)
    requires InRange(s) && i < |s.trail|
  {
    s.reason[s.trail[i]].Some? ==>
      var c := s.reason[s.trail[i]].value;
      c < |s.clauses| && exists p :: UnitAt(s, s.clauses[c], i, p)
  }

  // The implication graph.
  ghost predicate Graph(s: State) {
    && InRange(s)
    && TableWf(s)
    && TrailExact(s)
    && (forall i :: 0 <= i < |s.trail| ==> LevelStep(s, i))
    && (forall i :: 0 <= i < |s.trail| ==> Justified(s, i))
  }

  ghost predicate Fixed(s: State, v: nat, k: nat) {
    v < |s.assign| && v < |s.level| && s.assign[v] != NotAssigned && s.level[v] <= k
  }

  ghost predicate SatisfiedBy(s: State, c: Clause, k: nat) {
    exists p :: 0 <= p < |c| && LitTrue(s.assign, c[p]) && Fixed(s, c[p].id, k)
  }

  ghost predicate TwoOpen(s: State, c: Clause, k: nat) {
    exists p, q :: 0 <= p < q < |c| && !Fixed(s, c[p].id, k) && !Fixed(s, c[q].id, k)
  }

  // Under the trail cut to levels <= k, the clause is neither unit nor falsified.
  ghost predicate Quiet(s: State, c: Clause, k: nat) {
    SatisfiedBy(s, c, k) || TwoOpen(s, c, k)
  }

  ghost predicate QuietBelow(s: State, k: nat) {
    forall j, i :: 0 <= j < k && 0 <= i < |s.clauses| ==> Quiet(s, s.clauses[i], j)
  }

  ghost predicate Tied(s: State)
    requires InRange(s)
  {
    LevelBefore(s, |s.trail|) == s.cur
  }

  // What holds between any two steps of the search.
  ghost predicate Inv(s: State) {
    Graph(s) && Tied(s) && QuietBelow(s, s.cur)
  }

  // Every clause has been propagated at the current level.
  ghost predicate AllSettled(s: State) {
    forall i :: 0 <= i < |s.clauses| ==> Settled(s.assign, s.clauses[i])
  }

  // ---- The steps ----

  function Polarity(l: Literal): Assignment { if l.IsOn() then On else Off }

  predicate CanPropagate(s: State, c: nat, p: nat) {
    && c < |s.clauses| && p < |s.clauses[c]|
    && Free(s.assign, s.clauses[c][p].id)
    && forall q :: 0 <= q < |s.clauses[c]| && q != p ==> LitFalse(s.assign, s.clauses[c][q])
  }

  // Makes the literal true at the current level, with clause c as its reason.
  function PropagateLit(s: State, c: nat, b: Bound): State
    requires b.id < |s.assign| == |s.level| == |s.reason|
  {
    s.(assign := s.assign[b.id := Polarity(b.lit)],
       level := s.level[b.id := s.cur],
       reason := s.reason[b.id := Some(c)],
       trail := s.trail + [b.id])
  }

  function Propagate(s: State, c: nat, p: nat): State
    requires |s.assign| == |s.level| == |s.reason| && CanPropagate(s, c, p)
  {
    PropagateLit(s, c, s.clauses[c][p])
  }

  function Decide(s: State, v: nat): State
    requires |s.assign| == |s.level| && Free(s.assign, v)
  {
    s.(assign := s.assign[v := On],
       level := s.level[v := s.cur + 1],
       trail := s.trail + [v],
       cur := s.cur + 1)
  }

  function Pop(s: State): State
    requires s.trail != [] && s.trail[|s.trail| - 1] < |s.assign| == |s.reason|
  {
    var v := s.trail[|s.trail| - 1];
    s.(assign := s.assign[v := NotAssigned], reason := s.reason[v := None], trail := s.trail[..|s.trail| - 1])
  }

  // Drops every assignment above level k.
  ghost function BackTo(s: State, k: nat): State
    requires InRange(s)
    decreases |s.trail|
  {
    if s.trail == [] || s.level[s.trail[|s.trail| - 1]] <= k then s.(cur := k)
    else BackTo(Pop(s), k)
  }

  function Learn(s: State, c: Clause): State { s.(clauses := s.clauses + [c]) }

  // Nothing assigned yet.
  function Fresh(vars: seq<Literal>, table: seq<Clause>): State {
    State(vars, table, seq(|vars|, _ => NotAssigned), seq(|vars|, _ => 0), seq(|vars|, _ => None), [], 0)
  }

  lemma FreshInv(vars: seq<Literal>, table: seq<Clause>)
    requires TableWf(Fresh(vars, table))
    ensures Inv(Fresh(vars, table))
  {
  }

  // ---- Levels along the trail ----

  lemma {:induction false} LevelsAscend(s: State, i: nat, j: nat)
    requires Graph(s) && i <= j < |s.trail|
    ensures s.level[s.trail[i]] <= s.level[s.trail[j]]
    ensures i < j && IsDecisionAt(s, j) ==> s.level[s.trail[i]] < s.level[s.trail[j]]
    decreases j
  {
    assert LevelStep(s, j);
    if i >= j {
    } else {
      LevelsAscend(s, i, j - 1);
    }
  }

  lemma LevelsBounded(s: State, v: nat)
    requires Graph(s) && Tied(s) && v < |s.vars| && s.assign[v] != NotAssigned
    ensures s.level[v] <= s.cur
  {
    var i :| 0 <= i < |s.trail| && s.trail[i] == v;
    LevelsAscend(s, i, |s.trail| - 1);
  }

  // Each level above zero has a decision, and that decision is the first of its level.
  lemma {:induction false} DecisionOf(s: State, k: nat, end: nat) returns (d: nat)
    requires Graph(s) && end <= |s.trail| && 1 <= k <= LevelBefore(s, end)
    ensures d < end && IsDecisionAt(s, d) && s.level[s.trail[d]] == k
    ensures forall i :: 0 <= i < d ==> s.level[s.trail[i]] < k
    ensures forall i :: 0 <= i < |s.trail| && s.level[s.trail[i]] == k && i != d ==> d < i && !IsDecisionAt(s, i)
    decreases end
  {
    assert LevelStep(s, end - 1);
    if LevelBefore(s, end - 1) >= k {
      d := DecisionOf(s, k, end - 1);
    } else {
      d := end - 1;
      forall i | 0 <= i < d ensures s.level[s.trail[i]] < k { LevelsAscend(s, i, d); }
      forall i | 0 <= i < |s.trail| && s.level[s.trail[i]] == k && i != d
        ensures d < i && !IsDecisionAt(s, i)
      {
        if i > d { LevelsAscend(s, d, i); }
      }
    }
  }

  lemma {:induction false} RowsFit(rows: seq<nat>, n: nat)
    requires forall i, j :: 0 <= i < j < |rows| ==> rows[i] != rows[j]
    requires forall i :: 0 <= i < |rows| ==> rows[i] < n
    ensures |rows| <= n
    decreases n
  {
    assert rows == [] || rows[0] < n;
    if n == 0 {
    } else {
      if k :| 0 <= k < |rows| && rows[k] == n - 1 {
        RowsFit(rows[..k] + rows[k + 1..], n - 1);
      } else {
        RowsFit(rows, n - 1);
      }
    }
  }

  lemma TrailFits(s: State)
    requires Inv(s)
    ensures |s.trail| <= |s.vars|
  {
    RowsFit(s.trail, |s.vars|);
  }

  // ---- Every step keeps the invariant ----

  // Quietness at level k depends only on what is fixed at levels <= k.
  lemma QuietTransfers(s: State, t: State, c: Clause, k: nat)
    requires Quiet(s, c, k)
    requires forall v: nat :: Fixed(t, v, k) <==> Fixed(s, v, k)
    requires forall v: nat :: Fixed(s, v, k) && v < |t.assign| ==> t.assign[v] == s.assign[v]
    ensures Quiet(t, c, k)
  {
    if SatisfiedBy(s, c, k) {
      var p :| 0 <= p < |c| && LitTrue(s.assign, c[p]) && Fixed(s, c[p].id, k);
      assert LitTrue(t.assign, c[p]) && Fixed(t, c[p].id, k);
    } else {
      var p, q :| 0 <= p < q < |c| && !Fixed(s, c[p].id, k) && !Fixed(s, c[q].id, k);
      assert !Fixed(t, c[p].id, k) && !Fixed(t, c[q].id, k);
    }
  }

  // A trail that grows by one variable keeps the graph facts about the older positions.
  lemma OlderPositionsKept(s: State, t: State, v: nat, i: nat)
    requires Graph(s) && InRange(t) && t.vars == s.vars && t.clauses == s.clauses
    requires Free(s.assign, v) && t.trail == s.trail + [v] && i < |s.trail|
    requires forall u :: 0 <= u < |s.vars| && u != v ==>
      t.assign[u] == s.assign[u] && t.level[u] == s.level[u] && t.reason[u] == s.reason[u]
    ensures LevelStep(t, i) && Justified(t, i)
  {
    assert LevelStep(s, i) && Justified(s, i);
    assert t.trail[i] == s.trail[i] && t.trail[..i] == s.trail[..i];
    assert s.trail[i] in s.trail;
    if i > 0 { assert s.trail[i - 1] in s.trail; }
    if s.reason[s.trail[i]].Some? {
      var c := s.clauses[s.reason[s.trail[i]].value];
      var p :| UnitAt(s, c, i, p);
      forall q | 0 <= q < |c| && q != p ensures LitFalse(t.assign, c[q]) && c[q].id in t.trail[..i] {
        assert c[q].id in s.trail[..i];
        assert c[q].id in s.trail;
      }
      assert UnitAt(t, c, i, p);
    }
  }

  lemma TrailGrows(s: State, t: State, v: nat)
    requires Graph(s) && InRange(t) && t.vars == s.vars && t.clauses == s.clauses
    requires Free(s.assign, v) && t.trail == s.trail + [v] && t.assign[v] != NotAssigned
    requires forall u :: 0 <= u < |s.vars| && u != v ==>
      t.assign[u] == s.assign[u] && t.level[u] == s.level[u] && t.reason[u] == s.reason[u]
    requires LevelStep(t, |s.trail|) && Justified(t, |s.trail|)
    ensures Graph(t)
  {
    forall i | 0 <= i < |t.trail| ensures LevelStep(t, i) && Justified(t, i) {
      if i < |s.trail| { OlderPositionsKept(s, t, v, i); }
    }
    assert v !in s.trail;
    forall i, j | 0 <= i < j < |t.trail| ensures t.trail[i] != t.trail[j] {
      assert t.trail[i] == s.trail[i];
      assert s.trail[i] in s.trail;
    }
    forall u | 0 <= u < |t.vars| ensures t.assign[u] != NotAssigned <==> u in t.trail {
      assert u in t.trail <==> u in s.trail || u == v;
    }
  }

  lemma QuietBelowKept(s: State, t: State, v: nat)
    requires InRange(s) && InRange(t) && t.vars == s.vars && t.clauses == s.clauses
    requires Free(s.assign, v) && t.level[v] >= s.cur
    requires forall u :: 0 <= u < |s.vars| && u != v ==> t.assign[u] == s.assign[u] && t.level[u] == s.level[u]
    requires QuietBelow(s, s.cur)
    ensures QuietBelow(t, s.cur)
  {
    forall j, i | 0 <= j < s.cur && 0 <= i < |t.clauses| ensures Quiet(t, t.clauses[i], j) {
      assert Quiet(s, s.clauses[i], j);
      QuietTransfers(s, t, s.clauses[i], j);
    }
  }

  lemma PropagateKeeps(s: State, c: nat, p: nat)
    requires Inv(s) && CanPropagate(s, c, p)
    ensures Inv(Propagate(s, c, p))
  {
    var t := Propagate(s, c, p);
    var v := s.clauses[c][p].id;
    PropagatedIsUnit(s, c, p);
    LevelBeforeKept(s, t, v);
    TrailGrows(s, t, v);
    hide Graph;
    QuietBelowKept(s, t, v);
  }

  lemma PropagatedIsUnit(s: State, c: nat, p: nat)
    requires InRange(s) && TableWf(s) && TrailExact(s) && CanPropagate(s, c, p)
    ensures InRange(Propagate(s, c, p)) && UnitAt(Propagate(s, c, p), s.clauses[c], |s.trail|, p)
  {
    var t := Propagate(s, c, p);
    var cl := s.clauses[c];
    assert BoundWf(s.vars, cl[p]);
    assert t.trail[..|s.trail|] == s.trail;
    forall q | 0 <= q < |cl| && q != p ensures LitFalse(t.assign, cl[q]) && cl[q].id in s.trail {
      assert LitFalse(s.assign, cl[q]) && BoundWf(s.vars, cl[q]);
    }
  }

  lemma LevelBeforeKept(s: State, t: State, v: nat)
    requires Graph(s) && InRange(t) && t.vars == s.vars
    requires Free(s.assign, v) && t.trail == s.trail + [v]
    requires forall u :: 0 <= u < |s.vars| && u != v ==> t.level[u] == s.level[u]
    ensures LevelBefore(t, |s.trail|) == LevelBefore(s, |s.trail|)
  {
    if s.trail != [] { assert s.trail[|s.trail| - 1] in s.trail; }
  }

  // With everything settled, quietness holds at the current level too.
  lemma SettledIsQuiet(s: State, i: nat)
    requires Graph(s) && Tied(s) && i < |s.clauses| && Settled(s.assign, s.clauses[i])
    ensures Quiet(s, s.clauses[i], s.cur)
  {
    var c := s.clauses[i];
    if ClauseSatisfied(s.assign, c) {
      var p :| 0 <= p < |c| && LitTrue(s.assign, c[p]);
      LevelsBounded(s, c[p].id);
      assert Fixed(s, c[p].id, s.cur);
    } else {
      var p, q :| 0 <= p < q < |c| && Free(s.assign, c[p].id) && Free(s.assign, c[q].id);
      assert !Fixed(s, c[p].id, s.cur) && !Fixed(s, c[q].id, s.cur);
    }
  }

  lemma DecideKeeps(s: State, v: nat)
    requires Inv(s) && AllSettled(s) && Free(s.assign, v)
    ensures Inv(Decide(s, v))
  {
    var t := Decide(s, v);
    var i := |s.trail|;
    assert LevelBefore(t, i) == LevelBefore(s, i) by {
      if i > 0 { assert s.trail[i - 1] in s.trail; }
    }
    TrailGrows(s, t, v);
    forall j, k | 0 <= j < t.cur && 0 <= k < |t.clauses| ensures Quiet(t, t.clauses[k], j) {
      if j == s.cur { SettledIsQuiet(s, k); } else { assert Quiet(s, s.clauses[k], j); }
      QuietTransfers(s, t, s.clauses[k], j);
    }
  }

  lemma PopKeepsPosition(s: State, i: nat)
    requires Graph(s) && i + 1 < |s.trail|
    ensures InRange(Pop(s)) && LevelStep(Pop(s), i) && Justified(Pop(s), i)
  {
    var t := Pop(s);
    var v := s.trail[|t.trail|];
    assert LevelStep(s, i) && Justified(s, i);
    assert t.trail[..i] == s.trail[..i];
    if s.reason[s.trail[i]].Some? {
      var c := s.clauses[s.reason[s.trail[i]].value];
      var p :| UnitAt(s, c, i, p);
      forall q | 0 <= q < |c| && q != p ensures LitFalse(t.assign, c[q]) && c[q].id in t.trail[..i] {
        assert c[q].id in t.trail[..i];
        assert c[q].id != v;
      }
      assert UnitAt(t, c, i, p);
    }
  }

  lemma PopKeeps(s: State)
    requires Graph(s) && s.trail != []
    ensures Graph(Pop(s))
    ensures LevelBefore(s, |s.trail| - 1) == LevelBefore(Pop(s), |s.trail| - 1)
  {
    var t := Pop(s);
    var v := s.trail[|t.trail|];
    forall i | 0 <= i < |t.trail| ensures LevelStep(t, i) && Justified(t, i) { PopKeepsPosition(s, i); }
    forall u | 0 <= u < |s.vars| ensures u in t.trail <==> u in s.trail && u != v {
      assert s.trail == t.trail + [v];
    }
  }

  lemma PopKeepsQuiet(s: State, k: nat)
    requires InRange(s) && s.trail != [] && s.level[s.trail[|s.trail| - 1]] >= k
    requires QuietBelow(s, k)
    ensures QuietBelow(Pop(s), k)
  {
    var t := Pop(s);
    forall j, i | 0 <= j < k && 0 <= i < |t.clauses| ensures Quiet(t, t.clauses[i], j) {
      assert Quiet(s, s.clauses[i], j);
      QuietTransfers(s, t, s.clauses[i], j);
    }
  }

  lemma RelevelKeeps(s: State, k: nat)
    requires Graph(s) && QuietBelow(s, k)
    ensures Graph(s.(cur := k)) && QuietBelow(s.(cur := k), k)
    ensures LevelBefore(s, |s.trail|) == LevelBefore(s.(cur := k), |s.trail|)
  {
    var t := s.(cur := k);
    forall i | 0 <= i < |t.trail| ensures LevelStep(t, i) && Justified(t, i) {
      assert LevelStep(s, i) && Justified(s, i);
      if s.reason[s.trail[i]].Some? {
        var c := s.clauses[s.reason[s.trail[i]].value];
        var p :| UnitAt(s, c, i, p);
        assert UnitAt(t, c, i, p);
      }
    }
    forall j, i | 0 <= j < k && 0 <= i < |t.clauses| ensures Quiet(t, t.clauses[i], j) {
      assert Quiet(s, s.clauses[i], j);
      QuietTransfers(s, t, s.clauses[i], j);
    }
  }

  // Backtracking lands in a state that satisfies the whole invariant, from any graph that
  // is quiet below the target level.
  lemma {:induction false} BackToKeeps(s: State, k: nat)
    requires Graph(s) && LevelBefore(s, |s.trail|) >= k && QuietBelow(s, k)
    ensures Inv(BackTo(s, k))
    decreases |s.trail|
  {
    if s.trail == [] || s.level[s.trail[|s.trail| - 1]] <= k {
      RelevelKeeps(s, k);
    } else {
      PopKeeps(s);
      PopKeepsQuiet(s, k);
      assert LevelStep(s, |s.trail| - 1);
      BackToKeeps(Pop(s), k);
    }
  }

  lemma {:induction false} BackToLevel(s: State, k: nat)
    requires InRange(s)
    ensures BackTo(s, k).cur == k
    decreases |s.trail|
  {
    if s.trail == [] || s.level[s.trail[|s.trail| - 1]] <= k {
    } else {
      BackToLevel(Pop(s), k);
    }
  }

  // t is s cut to the trail positions whose level is at most k.
  ghost predicate CutTo(s: State, t: State, k: nat)
    requires InRange(s)
  {
    && t.vars == s.vars && t.clauses == s.clauses && t.level == s.level && t.cur == k
    && |t.trail| <= |s.trail| && t.trail == s.trail[..|t.trail|]
    && |t.assign| == |t.reason| == |s.vars|
    && (forall i :: 0 <= i < |s.trail| ==> (i < |t.trail| <==> s.level[s.trail[i]] <= k))
    && (forall v :: 0 <= v < |s.vars| && Fixed(s, v, k) ==> t.assign[v] == s.assign[v] && t.reason[v] == s.reason[v])
    && (forall v :: 0 <= v < |s.vars| && !Fixed(s, v, k) ==> t.assign[v] == NotAssigned && t.reason[v] == None)
  }

  lemma NothingCut(s: State, k: nat)
    requires Graph(s) && (s.trail == [] || s.level[s.trail[|s.trail| - 1]] <= k)
    ensures CutTo(s, s.(cur := k), k)
  {
    forall i | 0 <= i < |s.trail| ensures s.level[s.trail[i]] <= k { LevelsAscend(s, i, |s.trail| - 1); }
    assert forall i :: 0 <= i < |s.trail| ==> Fixed(s, s.trail[i], k);
  }

  lemma PopThenCut(s: State, t: State, k: nat)
    requires Graph(s) && s.trail != [] && s.level[s.trail[|s.trail| - 1]] > k
    requires InRange(Pop(s)) && CutTo(Pop(s), t, k)
    ensures CutTo(s, t, k)
  {
    var p := Pop(s);
    forall v | 0 <= v < |s.vars| ensures Fixed(s, v, k) <==> Fixed(p, v, k) {}
    forall i | 0 <= i < |p.trail| ensures p.trail[i] == s.trail[i] {}
  }

  // What backtracking keeps, exactly: the positions whose level is at most k.
  lemma {:induction false} BackToExact(s: State, k: nat)
    requires Graph(s)
    ensures CutTo(s, BackTo(s, k), k)
    decreases |s.trail|
  {
    if s.trail == [] || s.level[s.trail[|s.trail| - 1]] <= k {
      NothingCut(s, k);
    } else {
      PopKeeps(s);
      BackToExact(Pop(s), k);
      hide Graph, CutTo;
      PopThenCut(s, BackTo(s, k), k);
    }
  }
}
