// Conflict analysis: which assignments of the current level lead to a conflict, what its
// unique implication points are, and what a learned clause must look like.
//
// Positions are trail positions. `conflict` is a clause that the assignment falsifies.
module Analysis {
  import opened Cnf
  import opened Clauses
  import opened Search

  ghost predicate OccursIn(c: Clause, v: nat) {
    exists p :: 0 <= p < |c| && c[p].id == v
  }

  ghost predicate AtCur(s: State, i: nat)
    requires InRange(s)
  {
    i < |s.trail| && s.level[s.trail[i]] == s.cur
  }

  ghost function ReasonAt(s: State, i: nat): Clause
    requires InRange(s) && i < |s.trail|
  {
    var r := s.reason[s.trail[i]];
    if r.Some? && r.value < |s.clauses| then s.clauses[r.value] else []
  }

  // An edge of the implication graph: the variable at i is among the causes of the one at j.
  ghost predicate Feeds(s: State, i: nat, j: nat)
    requires InRange(s) && j < |s.trail|
  {
    i < j && OccursIn(ReasonAt(s, j), s.trail[i])
  }

  // A chain of edges within the current level leads from position i to the conflict.
  ghost predicate Reach(s: State, conflict: Clause, i: nat)
    requires InRange(s)
    decreases |s.trail| - i
  {
    && AtCur(s, i)
    && (OccursIn(conflict, s.trail[i])
        || exists j :: i < j < |s.trail| && Feeds(s, i, j) && Reach(s, conflict, j))
  }

  // The same, by a chain that does not touch position w.
  ghost predicate Bypasses(s: State, conflict: Clause, i: nat, w: nat)
    requires InRange(s)
    decreases |s.trail| - i
  {
    && i != w
    && AtCur(s, i)
    && (OccursIn(conflict, s.trail[i])
        || exists j :: i < j < |s.trail| && Feeds(s, i, j) && Bypasses(s, conflict, j, w))
  }

  // Position q enters the conflict, or the reason of a position after t that leads to it.
  ghost predicate Enters(s: State, conflict: Clause, t: int, q: nat)
    requires InRange(s) && q < |s.trail|
  {
    OccursIn(conflict, s.trail[q])
    || exists j :: q < j < |s.trail| && t < j && Feeds(s, q, j) && Reach(s, conflict, j)
  }

  // A unique implication point: every chain from the level's decision to the conflict
  // passes through w.
  ghost predicate IsUip(s: State, conflict: Clause, w: nat)
    requires InRange(s)
  {
    && AtCur(s, w)
    && forall d :: AtCur(s, d) && IsDecisionAt(s, d) ==> !Bypasses(s, conflict, d, w)
  }

  ghost predicate IsFirstUip(s: State, conflict: Clause, w: nat)
    requires InRange(s)
  {
    IsUip(s, conflict, w) && forall x :: w < x < |s.trail| ==> !IsUip(s, conflict, x)
  }

  // The positions after t that lead to the conflict.
  ghost function Reached(s: State, conflict: Clause, t: int): set<nat>
    requires InRange(s)
  {
    set i | 0 <= i < |s.trail| && t < i && Reach(s, conflict, i)
  }

  ghost predicate Resolved(s: State, r: set<nat>, v: nat)
    requires InRange(s)
  {
    exists j :: j in r && j < |s.trail| && s.trail[j] == v
  }

  ghost predicate InReasons(s: State, r: set<nat>, b: Bound)
    requires InRange(s)
  {
    exists j :: j in r && j < |s.trail| && b in ReasonAt(s, j)
  }

  // The literals that remain when the conflict is resolved with the reasons of the
  // positions in r.
  ghost predicate FrontierLit(s: State, conflict: Clause, r: set<nat>, b: Bound)
    requires InRange(s)
  {
    (b in conflict || InReasons(s, r, b)) && !Resolved(s, r, b.id)
  }

  // The clause holds exactly the literals left when everything after t that leads to the
  // conflict has been resolved.
  ghost predicate IsFrontier(s: State, conflict: Clause, t: int, learned: Clause)
    requires InRange(s)
  {
    forall x :: x in learned <==> FrontierLit(s, conflict, Reached(s, conflict, t), x)
  }

  // v is the only current-level variable on the frontier cut at t.
  ghost predicate OnlyCurrent(s: State, conflict: Clause, t: int, v: nat)
    requires InRange(s)
  {
    forall b :: FrontierLit(s, conflict, Reached(s, conflict, t), b) && b.id < |s.vars| && s.level[b.id] == s.cur ==>
      b.id == v
  }

  // The level to jump back to: the highest among the learned literals below the current
  // level that the conflict clause did not already have, or zero.
  ghost predicate JumpLevel(s: State, conflict: Clause, learned: Clause, k: nat)
    requires InRange(s)
  {
    && (forall x :: x in learned && x.id < |s.vars| && s.level[x.id] < s.cur && !OccursIn(conflict, x.id) ==>
         s.level[x.id] <= k)
    && (k == 0 ||
        exists x :: x in learned && x.id < |s.vars| && s.level[x.id] == k < s.cur && !OccursIn(conflict, x.id))
  }

  // ---- Facts about any conflict in a reachable state ----

  ghost predicate InConflict(s: State, conflict: Clause) {
    && Inv(s)
    && conflict in s.clauses
    && Falsified(s.assign, conflict)
  }

  lemma ConflictHere(s: State, i: nat)
    requires Inv(s) && i < |s.clauses| && Falsified(s.assign, s.clauses[i])
    ensures InConflict(s, s.clauses[i]) && InRange(s) && TableWf(s) && VariablesWf(s.vars) && s.trail != []
  {
    var c := s.clauses[i];
    assert LitFalse(s.assign, c[0]);
    assert c[0].id in s.trail;
  }

  lemma PositionOf(s: State, v: nat) returns (i: nat)
    requires Graph(s) && v < |s.vars| && s.assign[v] != NotAssigned
    ensures i < |s.trail| && s.trail[i] == v
  {
    i :| 0 <= i < |s.trail| && s.trail[i] == v;
  }

  lemma SamePosition(s: State, i: nat, j: nat)
    requires Graph(s) && i < |s.trail| && j < |s.trail| && s.trail[i] == s.trail[j]
    ensures i == j
  {
  }

  lemma ReasonShape(s: State, i: nat) returns (p: nat)
    requires Graph(s) && i < |s.trail| && !IsDecisionAt(s, i)
    ensures ReasonAt(s, i) in s.clauses && ClauseWf(s.vars, ReasonAt(s, i)) && UnitAt(s, ReasonAt(s, i), i, p)
  {
    assert Justified(s, i);
    p :| UnitAt(s, ReasonAt(s, i), i, p);
  }

  // A literal of a reason is the propagated one, or false and fed from an earlier position.
  lemma ReasonLit(s: State, i: nat, b: Bound) returns (q: nat)
    requires Graph(s) && i < |s.trail| && b in ReasonAt(s, i)
    ensures BoundWf(s.vars, b) && !IsDecisionAt(s, i) && ReasonAt(s, i) in s.clauses
    ensures b.id == s.trail[i] ==> LitTrue(s.assign, b)
    ensures b.id != s.trail[i] ==> LitFalse(s.assign, b) && q < i && s.trail[q] == b.id && Feeds(s, q, i)
  {
    var c := ReasonAt(s, i);
    var p := ReasonShape(s, i);
    var k :| 0 <= k < |c| && c[k] == b;
    q := 0;
    if k != p {
      assert c[k].id in s.trail[..i];
      q :| 0 <= q < i && s.trail[..i][q] == b.id;
      assert c[k].id == s.trail[q];
      PositionsDiffer(s, q, i);
    }
  }

  lemma PositionsDiffer(s: State, i: nat, j: nat)
    requires Graph(s) && i < j < |s.trail|
    ensures s.trail[i] != s.trail[j]
  {
  }

  // A clause that is not satisfied and has every literal assigned has two literal
  // positions on the current level, because the level below was quiet.
  lemma TwoAtCur(s: State, c: Clause) returns (p: nat, q: nat)
    requires Inv(s) && s.cur >= 1 && c in s.clauses
    requires forall k :: 0 <= k < |c| ==> c[k].id < |s.vars| && s.assign[c[k].id] != NotAssigned
    requires forall k :: 0 <= k < |c| && LitTrue(s.assign, c[k]) ==> s.level[c[k].id] == s.cur
    ensures p < q < |c| && s.level[c[p].id] == s.level[c[q].id] == s.cur
  {
    var i :| 0 <= i < |s.clauses| && s.clauses[i] == c;
    assert Quiet(s, s.clauses[i], s.cur - 1);
    p, q :| 0 <= p < q < |c| && !Fixed(s, c[p].id, s.cur - 1) && !Fixed(s, c[q].id, s.cur - 1);
    LevelsBounded(s, c[p].id);
    LevelsBounded(s, c[q].id);
  }

  // A propagation on a level above zero has a cause on the same level.
  lemma ReasonHasPeer(s: State, i: nat) returns (q: nat, b: Bound)
    requires Inv(s) && s.cur >= 1 && AtCur(s, i) && !IsDecisionAt(s, i)
    ensures q < i && AtCur(s, q) && Feeds(s, q, i)
    ensures b in ReasonAt(s, i) && b.id == s.trail[q]
  {
    var c := ReasonAt(s, i);
    var p := ReasonShape(s, i);
    forall k | 0 <= k < |c| ensures c[k].id < |s.vars| && s.assign[c[k].id] != NotAssigned {
      assert BoundWf(s.vars, c[k]);
    }
    var x, y := TwoAtCur(s, c);
    b := if x == p then c[y] else c[x];
    assert b.id != s.trail[i] by {
      assert b.id in s.trail[..i];
      var j :| 0 <= j < i && s.trail[..i][j] == b.id;
      PositionsDiffer(s, j, i);
    }
    q := ReasonLit(s, i, b);
  }

  lemma ConflictAtCur(s: State, conflict: Clause) returns (p: nat, q: nat)
    requires InConflict(s, conflict) && s.cur >= 1
    ensures p < q < |conflict| && s.level[conflict[p].id] == s.level[conflict[q].id] == s.cur
  {
    forall k | 0 <= k < |conflict| ensures conflict[k].id < |s.vars| && s.assign[conflict[k].id] != NotAssigned {
      assert LitFalse(s.assign, conflict[k]);
    }
    p, q := TwoAtCur(s, conflict);
  }

  // ---- The frontier ----

  lemma FrontierFalse(s: State, conflict: Clause, r: set<nat>, b: Bound)
    requires InConflict(s, conflict) && FrontierLit(s, conflict, r, b)
    ensures BoundWf(s.vars, b) && LitFalse(s.assign, b) && s.level[b.id] <= s.cur
  {
    if b in conflict {
      var i :| 0 <= i < |s.clauses| && s.clauses[i] == conflict;
      var k :| 0 <= k < |conflict| && conflict[k] == b;
      assert LitFalse(s.assign, conflict[k]) && BoundWf(s.vars, s.clauses[i][k]);
    } else {
      var j :| j in r && j < |s.trail| && b in ReasonAt(s, j);
      var _ := ReasonLit(s, j, b);
    }
    LevelsBounded(s, b.id);
  }

  // A current-level frontier literal sits at a position <= t that leads to the conflict.
  lemma FrontierReaches(s: State, conflict: Clause, t: int, b: Bound) returns (q: nat)
    requires InConflict(s, conflict) && FrontierLit(s, conflict, Reached(s, conflict, t), b)
    requires b.id < |s.vars| && s.level[b.id] == s.cur
    ensures q < |s.trail| && q <= t && s.trail[q] == b.id && Reach(s, conflict, q)
    ensures Enters(s, conflict, t, q)
  {
    var r := Reached(s, conflict, t);
    FrontierFalse(s, conflict, r, b);
    q := PositionOf(s, b.id);
    if b in conflict {
      var k :| 0 <= k < |conflict| && conflict[k] == b;
      assert OccursIn(conflict, s.trail[q]);
    } else {
      var j :| j in r && j < |s.trail| && b in ReasonAt(s, j);
      assert s.trail[j] != b.id;
      var q' := ReasonLit(s, j, b);
      SamePosition(s, q, q');
      assert Feeds(s, q, j) && Reach(s, conflict, j);
    }
    assert Reach(s, conflict, q);
    assert q > t ==> q in r;
  }

  // Conversely, a position <= t that enters the conflict or a resolved reason directly is
  // on the frontier.
  lemma DirectIsFrontier(s: State, conflict: Clause, t: int, i: nat) returns (b: Bound)
    requires InConflict(s, conflict) && i <= t && AtCur(s, i)
    requires Enters(s, conflict, t, i)
    ensures b.id == s.trail[i] && FrontierLit(s, conflict, Reached(s, conflict, t), b)
  {
    var r := Reached(s, conflict, t);
    if OccursIn(conflict, s.trail[i]) {
      var p :| 0 <= p < |conflict| && conflict[p].id == s.trail[i];
      b := conflict[p];
    } else {
      var j :| i < j < |s.trail| && t < j && Feeds(s, i, j) && Reach(s, conflict, j);
      var c := ReasonAt(s, j);
      var p :| 0 <= p < |c| && c[p].id == s.trail[i];
      b := c[p];
      assert j in r && b in ReasonAt(s, j);
      assert InReasons(s, r, b);
    }
    assert forall j :: j in r ==> i < j && s.trail[j] != b.id;
  }

  // The backward scan may pass position i: it does not lead to the conflict, or it is
  // the level's decision.
  ghost predicate Passed(s: State, conflict: Clause, i: nat)
    requires InRange(s)
  {
    !Reach(s, conflict, i) || IsDecisionAt(s, i)
  }

  // The frontier literal of current-level position i, if every position between i and t
  // is a decision or does not lead to the conflict.
  lemma ScanFinds(s: State, conflict: Clause, t: int, i: nat) returns (b: Bound)
    requires InConflict(s, conflict) && i <= t && Reach(s, conflict, i)
    requires forall j :: i < j < |s.trail| && j <= t ==> Passed(s, conflict, j)
    ensures b.id == s.trail[i] && FrontierLit(s, conflict, Reached(s, conflict, t), b)
  {
    if !OccursIn(conflict, s.trail[i]) {
      var j :| i < j < |s.trail| && Feeds(s, i, j) && Reach(s, conflict, j);
      assert !IsDecisionAt(s, j);
      assert j <= t ==> Passed(s, conflict, j);
    }
    b := DirectIsFrontier(s, conflict, t, i);
  }

  // If the frontier's only current-level variable is the one at u, nothing between u and t
  // leads to the conflict.
  lemma {:induction false} NothingAbove(s: State, conflict: Clause, t: nat, u: nat, i: nat)
    requires InConflict(s, conflict) && u < |s.trail| && t < |s.trail|
    requires OnlyCurrent(s, conflict, t, s.trail[u])
    requires u < i <= t
    ensures !Reach(s, conflict, i)
    decreases |s.trail| - i
  {
    forall j | i < j <= t ensures Passed(s, conflict, j) { NothingAbove(s, conflict, t, u, j); }
    if Reach(s, conflict, i) {
      var b := ScanFinds(s, conflict, t, i);
      PositionsDiffer(s, u, i);
      assert false;
    }
  }

  lemma ReachedCut(s: State, conflict: Clause, t: int, u: int)
    requires InRange(s) && u <= t
    requires forall i :: u < i <= t && 0 <= i < |s.trail| ==> !Reach(s, conflict, i)
    ensures Reached(s, conflict, u) == Reached(s, conflict, t)
  {
  }

  // ---- Unique implication points ----

  // The single current-level frontier position dominates the conflict.
  lemma {:induction false} BypassIsResolved(s: State, conflict: Clause, u: nat, i: nat)
    requires InConflict(s, conflict) && u < |s.trail|
    requires OnlyCurrent(s, conflict, u, s.trail[u])
    requires Bypasses(s, conflict, i, u)
    ensures u < i
    decreases |s.trail| - i
  {
    if i >= u {
    } else {
      if !OccursIn(conflict, s.trail[i]) {
        var j :| i < j < |s.trail| && Feeds(s, i, j) && Bypasses(s, conflict, j, u);
        BypassIsResolved(s, conflict, u, j);
        BypassReaches(s, conflict, j, u);
      }
      var b := DirectIsFrontier(s, conflict, u, i);
      PositionsDiffer(s, i, u);
      assert false;
    }
  }

  lemma {:induction false} BypassReaches(s: State, conflict: Clause, i: nat, w: nat)
    requires InRange(s) && Bypasses(s, conflict, i, w)
    ensures Reach(s, conflict, i)
    decreases |s.trail| - i
  {
    if OccursIn(conflict, s.trail[i]) {
    } else {
      var j :| i < j < |s.trail| && Feeds(s, i, j) && Bypasses(s, conflict, j, w);
      BypassReaches(s, conflict, j, w);
    }
  }

  // Chains only run forward, so one that starts after w, or that starts anywhere when w
  // does not lead to the conflict, bypasses w.
  lemma {:induction false} ReachBypasses(s: State, conflict: Clause, i: nat, w: nat)
    requires InRange(s) && Reach(s, conflict, i)
    requires w < i || !Reach(s, conflict, w)
    ensures Bypasses(s, conflict, i, w)
    decreases |s.trail| - i
  {
    if OccursIn(conflict, s.trail[i]) {
    } else {
      var j :| i < j < |s.trail| && Feeds(s, i, j) && Reach(s, conflict, j);
      ReachBypasses(s, conflict, j, w);
    }
  }

  // A bypass from any position before w extends back to the decision of the level.
  lemma {:induction false} BypassFromDecision(s: State, conflict: Clause, i: nat, w: nat) returns (d: nat)
    requires InConflict(s, conflict) && s.cur >= 1 && i < w && Bypasses(s, conflict, i, w)
    ensures AtCur(s, d) && IsDecisionAt(s, d) && Bypasses(s, conflict, d, w)
    decreases i
  {
    if IsDecisionAt(s, i) {
      d := i;
    } else {
      var q, _ := ReasonHasPeer(s, i);
      assert Bypasses(s, conflict, q, w);
      d := BypassFromDecision(s, conflict, q, w);
    }
  }

  // Something before w enters the conflict, or the reason of a later position that leads
  // to it: the frontier cut at w holds more than w.
  ghost predicate Shared(s: State, conflict: Clause, w: nat)
    requires InRange(s)
  {
    exists q :: 0 <= q < w && AtCur(s, q) && Enters(s, conflict, w, q)
  }

  lemma SharedIsNotUip(s: State, conflict: Clause, w: nat)
    requires InConflict(s, conflict) && s.cur >= 1 && Shared(s, conflict, w)
    ensures !IsUip(s, conflict, w)
  {
    var q: nat :| q < w && AtCur(s, q) && Enters(s, conflict, w, q);
    if !OccursIn(conflict, s.trail[q]) {
      var j :| w < j < |s.trail| && Feeds(s, q, j) && Reach(s, conflict, j);
      ReachBypasses(s, conflict, j, w);
    }
    assert Bypasses(s, conflict, q, w);
    var d := BypassFromDecision(s, conflict, q, w);
  }

  lemma UnreachedIsNotUip(s: State, conflict: Clause, u: nat, w: nat)
    requires InConflict(s, conflict) && s.cur >= 1 && u < w
    requires Reach(s, conflict, u) && !Reach(s, conflict, w)
    ensures !IsUip(s, conflict, w)
  {
    ReachBypasses(s, conflict, u, w);
    var d := BypassFromDecision(s, conflict, u, w);
  }

  // The cut that leaves one current-level variable is a unique implication point. A later
  // one must be a position that was resolved without sharing its frontier.
  lemma CutIsUip(s: State, conflict: Clause, u: nat, b: Bound)
    requires InConflict(s, conflict) && s.cur >= 1 && u < |s.trail|
    requires OnlyCurrent(s, conflict, u, s.trail[u])
    requires FrontierLit(s, conflict, Reached(s, conflict, u), b) && b.id == s.trail[u] && AtCur(s, u)
    ensures IsUip(s, conflict, u)
    ensures forall w :: u < w < |s.trail| && IsUip(s, conflict, w) ==>
      w in Reached(s, conflict, u) && !Shared(s, conflict, w)
  {
    forall d | AtCur(s, d) && IsDecisionAt(s, d) ensures !Bypasses(s, conflict, d, u) {
      if Bypasses(s, conflict, d, u) {
        BypassIsResolved(s, conflict, u, d);
        LevelsAscend(s, u, d);
        assert false;
      }
    }
    var q := FrontierReaches(s, conflict, u, b);
    SamePosition(s, q, u);
    forall w | u < w < |s.trail| && IsUip(s, conflict, w)
      ensures w in Reached(s, conflict, u) && !Shared(s, conflict, w)
    {
      if !Reach(s, conflict, w) { UnreachedIsNotUip(s, conflict, u, w); }
      if Shared(s, conflict, w) { SharedIsNotUip(s, conflict, w); }
    }
  }

  // ---- One resolution step ----

  // False literals over one variable are the same literal.
  lemma SameFalseLit(s: State, x: Bound, y: Bound)
    requires TableWf(s) && BoundWf(s.vars, x) && BoundWf(s.vars, y)
    requires LitFalse(s.assign, x) && LitFalse(s.assign, y)
    requires x.lit.Value() == y.lit.Value() || x.id == y.id
    ensures x == y
  {
    assert x.id == y.id;
  }

  // Resolving on the variable at position t moves t into the resolved set.
  lemma ReachedStep(s: State, conflict: Clause, t: nat)
    requires InRange(s) && t < |s.trail| && Reach(s, conflict, t)
    ensures Reached(s, conflict, t - 1) == Reached(s, conflict, t) + {t}
  {
  }

  lemma InReasonsStep(s: State, r: set<nat>, t: nat, x: Bound)
    requires InRange(s) && t < |s.trail|
    ensures InReasons(s, r + {t}, x) <==> InReasons(s, r, x) || x in ReasonAt(s, t)
  {
    if x in ReasonAt(s, t) { assert t in r + {t}; }
    if InReasons(s, r, x) {
      var j :| j in r && j < |s.trail| && x in ReasonAt(s, j);
      assert j in r + {t};
    }
  }

  lemma ResolvedStep(s: State, r: set<nat>, t: nat, v: nat)
    requires InRange(s) && t < |s.trail|
    ensures Resolved(s, r + {t}, v) <==> Resolved(s, r, v) || v == s.trail[t]
  {
    if v == s.trail[t] { assert t in r + {t}; }
    if Resolved(s, r, v) {
      var j :| j in r && j < |s.trail| && s.trail[j] == v;
      assert j in r + {t};
    }
  }

  lemma FrontierStep(s: State, conflict: Clause, t: nat, x: Bound)
    requires InConflict(s, conflict) && t < |s.trail|
    ensures var r := Reached(s, conflict, t);
      FrontierLit(s, conflict, r + {t}, x) <==>
        x.id != s.trail[t] && (FrontierLit(s, conflict, r, x) || x in ReasonAt(s, t))
  {
    var r := Reached(s, conflict, t);
    InReasonsStep(s, r, t, x);
    ResolvedStep(s, r, t, x.id);
    if x in ReasonAt(s, t) && x.id != s.trail[t] {
      var q := ReasonLit(s, t, x);
      NotResolved(s, conflict, t, q);
    }
  }

  lemma NotResolved(s: State, conflict: Clause, t: nat, q: nat)
    requires Graph(s) && q < t < |s.trail|
    ensures !Resolved(s, Reached(s, conflict, t), s.trail[q])
  {
    assert forall j :: j in Reached(s, conflict, t) ==> q < j && s.trail[j] != s.trail[q];
  }

  // The resolvent of two entailed clauses is entailed.
  lemma ResolventEntailed(table: seq<Clause>, learned: Clause, reason: Clause, resolvent: Clause, pivot: Bound)
    requires Entails(table, learned) && reason in table
    requires forall x :: x in learned ==> x in resolvent || x.lit.raw == -pivot.lit.raw
    requires forall x :: x in reason ==> x in resolvent || x == pivot
    requires pivot.lit.raw != 0
    ensures Entails(table, resolvent)
  {
    forall tau | SatisfiesTable(tau, table) ensures SatisfiesBound(tau, resolvent) {
      assert SatisfiesBound(tau, learned);
      var p :| 0 <= p < |learned| && Holds(tau, learned[p].lit);
      var i :| 0 <= i < |table| && table[i] == reason;
      assert SatisfiesBound(tau, table[i]);
      var q :| 0 <= q < |reason| && Holds(tau, reason[q].lit);
      var x := if learned[p] in resolvent then learned[p] else reason[q];
      assert x in resolvent by {
        if learned[p] !in resolvent && reason[q] !in resolvent {
          assert false;
        }
      }
      var k :| 0 <= k < |resolvent| && resolvent[k] == x;
    }
  }
}
