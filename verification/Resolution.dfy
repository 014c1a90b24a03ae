// The working state of the conflict analysis loop, step by step.
module Resolution {
  import opened Cnf
  import opened Clauses
  import opened Search
  import opened Analysis
  import opened Learning

  // ---- The list operations of the loop ----

  function WithoutVariable(c: Clause, value: nat): (r: Clause)
    ensures forall x :: x in r <==> x in c && x.lit.Value() != value
  {
    if c == [] then []
    else if c[0].lit.Value() == value then WithoutVariable(c[1..], value)
    else [c[0]] + WithoutVariable(c[1..], value)
  }

  predicate NoRepeats(rows: seq<nat>) {
    forall i, j :: 0 <= i < j < |rows| ==> rows[i] != rows[j]
  }

  function RowsWithout(vars: seq<Literal>, rows: seq<nat>, l: Literal): (r: seq<nat>)
    requires forall i :: 0 <= i < |rows| ==> rows[i] < |vars|
    ensures forall v :: v in r <==> v in rows && !vars[v].SameVariable(l)
  {
    if rows == [] then []
    else
      var rest := RowsWithout(vars, rows[1..], l);
      if vars[rows[0]].SameVariable(l) then rest else [rows[0]] + rest
  }

  ghost predicate Twice(rows: seq<nat>, v: nat) {
    exists i, j :: 0 <= i < j < |rows| && rows[i] == v && rows[j] == v
  }

  lemma TwiceAfterFirst(rows: seq<nat>, v: nat)
    requires rows != []
    ensures Twice(rows, v) <==> Twice(rows[1..], v) || (rows[0] == v && v in rows[1..])
  {
    var rest := rows[1..];
    assert forall i :: 0 <= i < |rest| ==> rest[i] == rows[i + 1];
    if Twice(rows, v) {
      var i, j :| 0 <= i < j < |rows| && rows[i] == v && rows[j] == v;
      assert rest[j - 1] == v;
      if i > 0 { assert rest[i - 1] == v; }
    }
    if Twice(rest, v) {
      var i, j :| 0 <= i < j < |rest| && rest[i] == v && rest[j] == v;
      assert rows[i + 1] == v && rows[j + 1] == v;
    }
  }

  lemma TwiceAfterPush(rows: seq<nat>, x: nat, v: nat)
    requires x !in rows
    ensures Twice(rows + [x], v) <==> Twice(rows, v)
  {
    var more := rows + [x];
    if Twice(rows, v) {
      var i, j :| 0 <= i < j < |rows| && rows[i] == v && rows[j] == v;
      assert more[i] == v && more[j] == v;
    }
  }

  // A clause that gains a variable it did not have repeats what it repeated.
  lemma RepeatedAfterPush(c: Clause, b: Bound, v: nat)
    requires forall x :: x in c ==> x.id != b.id
    ensures Repeated(c + [b], v) <==> Repeated(c, v)
  {
    var more := c + [b];
    assert forall p :: 0 <= p < |c| ==> more[p] == c[p] && c[p] in c;
    if Repeated(c, v) {
      var p, q :| 0 <= p < q < |c| && c[p].id == v && c[q].id == v;
      assert more[p].id == v && more[q].id == v;
    }
  }

  lemma {:induction false} RowsWithoutTwice(vars: seq<Literal>, rows: seq<nat>, l: Literal, v: nat)
    requires forall i :: 0 <= i < |rows| ==> rows[i] < |vars|
    requires v < |vars| && !vars[v].SameVariable(l)
    ensures Twice(RowsWithout(vars, rows, l), v) <==> Twice(rows, v)
  {
    if rows == [] {
    } else {
      RowsWithoutTwice(vars, rows[1..], l, v);
      TwiceAfterFirst(rows, v);
      var rest := RowsWithout(vars, rows[1..], l);
      if !vars[rows[0]].SameVariable(l) {
        var r := [rows[0]] + rest;
        assert r[1..] == rest;
        TwiceAfterFirst(r, v);
      }
    }
  }

  // The variable rows of the clause's literals at level k, with repetition.
  function RowsAtLevel(level: seq<nat>, c: Clause, k: nat): (r: seq<nat>)
    ensures forall v :: v in r <==> exists p :: 0 <= p < |c| && c[p].id == v && v < |level| && level[v] == k
  {
    if c == [] then []
    else
      var rest := RowsAtLevel(level, c[1..], k);
      assert forall p :: 0 < p < |c| ==> c[p] == c[1..][p - 1];
      assert forall p :: 0 <= p < |c[1..]| ==> c[1..][p] == c[p + 1];
      if c[0].id < |level| && level[c[0].id] == k then [c[0].id] + rest else rest
  }

  lemma {:induction false} RowsTwice(level: seq<nat>, c: Clause, k: nat, v: nat)
    requires v < |level| && level[v] == k
    ensures Twice(RowsAtLevel(level, c, k), v) <==> Repeated(c, v)
  {
    if c == [] {
    } else {
      var tail := c[1..];
      RowsTwice(level, tail, k, v);
      assert forall p :: 0 < p < |c| ==> c[p] == tail[p - 1];
      assert forall p :: 0 <= p < |tail| ==> tail[p] == c[p + 1];
      var rows := RowsAtLevel(level, c, k);
      if c[0].id < |level| && level[c[0].id] == k {
        TwiceAfterFirst(rows, v);
        assert rows[1..] == RowsAtLevel(level, tail, k);
      }
    }
  }

  // ---- The loop invariant ----

  ghost predicate CurRow(s: State, c: Clause, v: nat) {
    exists x :: x in c && x.id == v && v < |s.vars| && v < |s.level| && s.level[v] == s.cur
  }

  ghost predicate RowsOf(s: State, learned: Clause, rows: seq<nat>) {
    forall v :: v in rows <==> CurRow(s, learned, v)
  }

  // Every resolution so far was on one of several current-level variables, or on one that
  // the conflict clause repeats.
  ghost predicate AllShared(s: State, conflict: Clause, t: int)
    requires InRange(s)
  {
    forall w :: w in Reached(s, conflict, t) ==> Shared(s, conflict, w) || Repeated(conflict, s.trail[w])
  }

  // A row is listed twice when the conflict clause repeats its variable, and not otherwise.
  ghost predicate RowsCount(conflict: Clause, rows: seq<nat>) {
    forall v :: v in rows ==> (Twice(rows, v) <==> Repeated(conflict, v))
  }

  // With every position after t that leads to the conflict resolved: `learned` is the
  // frontier, `rows` its current-level variables, and `k` the jump level so far.
  ghost predicate Partial(s: State, conflict: Clause, t: int, learned: Clause, rows: seq<nat>, k: nat)
    requires InRange(s)
  {
    && IsFrontier(s, conflict, t, learned)
    && RowsOf(s, learned, rows)
    && JumpLevel(s, conflict, learned, k)
    && Entails(s.clauses, learned)
    && RowsCount(conflict, rows)
    && AllShared(s, conflict, t)
    && (s.cur >= 1 ==> rows != [])
    && (s.cur == 0 ==> k == 0)
  }

  lemma StartIsFrontier(s: State, conflict: Clause, rows: seq<nat>)
    requires InConflict(s, conflict) && rows == RowsAtLevel(s.level, conflict, s.cur)
    ensures IsFrontier(s, conflict, |s.trail| - 1, conflict) && RowsOf(s, conflict, rows)
  {
    var r := Reached(s, conflict, |s.trail| - 1);
    assert r == {};
    forall v ensures v in rows <==> CurRow(s, conflict, v) {
      if v in rows {
        var p :| 0 <= p < |conflict| && conflict[p].id == v;
        FrontierFalse(s, conflict, {}, conflict[p]);
        assert conflict[p] in conflict;
      }
      if CurRow(s, conflict, v) {
        var x :| x in conflict && x.id == v;
        var p :| 0 <= p < |conflict| && conflict[p] == x;
      }
    }
  }

  lemma MemberEntailed(table: seq<Clause>, c: Clause)
    requires c in table
    ensures Entails(table, c)
  {
    forall tau | SatisfiesTable(tau, table) ensures SatisfiesBound(tau, c) {
      var i :| 0 <= i < |table| && table[i] == c;
    }
  }

  lemma PartialStart(s: State, conflict: Clause, rows: seq<nat>)
    requires InConflict(s, conflict) && rows == RowsAtLevel(s.level, conflict, s.cur)
    ensures Partial(s, conflict, |s.trail| - 1, conflict, rows, 0)
  {
    StartIsFrontier(s, conflict, rows);
    MemberEntailed(s.clauses, conflict);
    assert Reached(s, conflict, |s.trail| - 1) == {};
    forall v | v in rows ensures Twice(rows, v) <==> Repeated(conflict, v) { RowsTwice(s.level, conflict, s.cur, v); }
    if s.cur >= 1 {
      var p, q := ConflictAtCur(s, conflict);
      assert conflict[p].id in rows;
    }
    forall x | x in conflict ensures OccursIn(conflict, x.id) {
      var p :| 0 <= p < |conflict| && conflict[p] == x;
    }
  }

  lemma RowIsAtPosition(s: State, conflict: Clause, t: int, learned: Clause, rows: seq<nat>, v: nat)
    returns (q: nat)
    requires InConflict(s, conflict) && IsFrontier(s, conflict, t, learned) && RowsOf(s, learned, rows) && v in rows
    ensures q < |s.trail| && q <= t && s.trail[q] == v && Reach(s, conflict, q)
    ensures Enters(s, conflict, t, q)
  {
    var x :| x in learned && x.id == v && v < |s.vars| && s.level[v] == s.cur;
    q := FrontierReaches(s, conflict, t, x);
  }

  lemma ScanPasses(s: State, conflict: Clause, t: int, learned: Clause, rows: seq<nat>, i: nat)
    requires InConflict(s, conflict) && IsFrontier(s, conflict, t, learned) && RowsOf(s, learned, rows)
    requires i < |s.trail| && i <= t && forall j :: i < j < |s.trail| && j <= t ==> Passed(s, conflict, j)
    requires IsDecisionAt(s, i) || !AtCur(s, i) || s.trail[i] !in rows
    ensures Passed(s, conflict, i)
  {
    if Reach(s, conflict, i) && !IsDecisionAt(s, i) {
      var b := ScanFinds(s, conflict, t, i);
      assert false;
    }
  }

  // Where the scan stops, nothing between there and its start leads to the conflict.
  lemma ScanStops(s: State, conflict: Clause, t: int, learned: Clause, rows: seq<nat>, i: nat)
    requires InConflict(s, conflict) && IsFrontier(s, conflict, t, learned) && RowsOf(s, learned, rows)
    requires i <= t < |s.trail| && forall j :: i < j <= t ==> Passed(s, conflict, j)
    requires !IsDecisionAt(s, i) && AtCur(s, i) && s.trail[i] in rows
    ensures Reach(s, conflict, i)
    ensures Reached(s, conflict, i) == Reached(s, conflict, t)
  {
    forall j | i < j <= t ensures !Reach(s, conflict, j) {
      assert Passed(s, conflict, j);
      LevelsAscend(s, i, j);
    }
    ReachedCut(s, conflict, t, i);
    var q := RowIsAtPosition(s, conflict, t, learned, rows, s.trail[i]);
    SamePosition(s, q, i);
  }

  lemma StopIsShared(s: State, conflict: Clause, i: nat, learned: Clause, rows: seq<nat>)
    requires InConflict(s, conflict) && IsFrontier(s, conflict, i, learned) && RowsOf(s, learned, rows)
    requires i < |s.trail| && |rows| > 1 && RowsCount(conflict, rows)
    ensures Shared(s, conflict, i) || Repeated(conflict, s.trail[i])
  {
    assert rows[0] in rows && rows[1] in rows;
    if rows[0] == rows[1] == s.trail[i] {
      assert Twice(rows, s.trail[i]);
    } else {
      var v := if rows[0] == s.trail[i] then rows[1] else rows[0];
      var q := RowIsAtPosition(s, conflict, i, learned, rows, v);
      assert q < i && AtCur(s, q);
    }
  }

  // The clause after resolving at position i: the pivot's variable is gone, the rest of
  // its reason has been added.
  ghost predicate ResolvedAt(s: State, i: nat, learned: Clause, learned': Clause)
    requires InRange(s) && i < |s.trail|
  {
    forall x :: x in learned' <==> x.id != s.trail[i] && (x in learned || x in ReasonAt(s, i))
  }

  lemma StepFrontier(s: State, conflict: Clause, i: nat, learned: Clause, learned': Clause)
    requires InConflict(s, conflict) && IsFrontier(s, conflict, i, learned)
    requires i < |s.trail| && Reach(s, conflict, i) && ResolvedAt(s, i, learned, learned')
    ensures IsFrontier(s, conflict, i - 1, learned')
    ensures Reached(s, conflict, i - 1) == Reached(s, conflict, i) + {i}
  {
    ReachedStep(s, conflict, i);
    forall x ensures x in learned' <==> FrontierLit(s, conflict, Reached(s, conflict, i - 1), x) {
      FrontierStep(s, conflict, i, x);
    }
  }

  lemma StepEntailed(s: State, conflict: Clause, i: nat, learned: Clause, learned': Clause)
    requires InConflict(s, conflict) && IsFrontier(s, conflict, i, learned) && Entails(s.clauses, learned)
    requires i < |s.trail| && !IsDecisionAt(s, i) && ResolvedAt(s, i, learned, learned')
    ensures Entails(s.clauses, learned')
  {
    var p := ReasonShape(s, i);
    var reason := ReasonAt(s, i);
    var pivot := reason[p];
    assert BoundWf(s.vars, pivot);
    forall x | x in learned ensures x in learned' || x.lit.raw == -pivot.lit.raw {
      FrontierFalse(s, conflict, Reached(s, conflict, i), x);
    }
    forall x | x in reason ensures x in learned' || x == pivot {
      if x.id == s.trail[i] {
        var m :| 0 <= m < |reason| && reason[m] == x;
        OnlyPivot(s, i, p, m);
      }
    }
    ResolventEntailed(s.clauses, learned, reason, learned', pivot);
  }

  lemma OnlyPivot(s: State, i: nat, p: nat, m: nat)
    requires Graph(s) && i < |s.trail| && UnitAt(s, ReasonAt(s, i), i, p)
    requires m < |ReasonAt(s, i)| && ReasonAt(s, i)[m].id == s.trail[i]
    ensures m == p
  {
    if m != p {
      assert false;
    }
  }

  lemma StepHasRow(s: State, i: nat, learned: Clause, learned': Clause, rows': seq<nat>)
    requires Inv(s) && s.cur >= 1 && AtCur(s, i) && !IsDecisionAt(s, i)
    requires ResolvedAt(s, i, learned, learned') && RowsOf(s, learned', rows')
    ensures rows' != []
  {
    var q, b := ReasonHasPeer(s, i);
    PositionsDiffer(s, q, i);
    assert CurRow(s, learned', b.id) by { assert b in learned'; }
  }

  lemma RowlessLit(s: State, c: Clause, x: Bound)
    requires x.id < |s.vars| && x.id < |s.level| && s.level[x.id] == s.cur && !CurRow(s, c, x.id)
    ensures x !in c
  {
  }

  // A row that the step adds is new to the conflict clause too.
  lemma StepCounts(
      s: State, conflict: Clause, i: nat, learned: Clause, rows: seq<nat>, learned': Clause, rows': seq<nat>)
    requires InConflict(s, conflict) && IsFrontier(s, conflict, i, learned) && i < |s.trail|
    requires RowsOf(s, learned, rows) && RowsCount(conflict, rows)
    requires ResolvedAt(s, i, learned, learned') && RowsOf(s, learned', rows')
    requires forall v :: v in rows' ==> (Twice(rows', v) <==> Twice(rows, v))
    ensures RowsCount(conflict, rows')
  {
    forall v | v in rows' && v !in rows ensures !Repeated(conflict, v) && !Twice(rows, v) {
      var x :| x in learned' && x.id == v && v < |s.vars| && s.level[v] == s.cur;
      RowlessLit(s, learned, x);
      var q := ReasonLit(s, i, x);
      if OccursIn(conflict, v) {
        var b := DirectIsFrontier(s, conflict, i, q);
        assert false;
      }
    }
  }

  lemma PartialStep(s: State, conflict: Clause, i: nat, learned: Clause, rows: seq<nat>, k: nat,
                    learned': Clause, rows': seq<nat>, k': nat)
    requires InConflict(s, conflict) && Partial(s, conflict, i, learned, rows, k)
    requires Reach(s, conflict, i) && !IsDecisionAt(s, i)
    requires Shared(s, conflict, i) || Repeated(conflict, s.trail[i])
    requires ResolvedAt(s, i, learned, learned') && RowsOf(s, learned', rows')
    requires JumpLevel(s, conflict, learned', k')
    requires forall v :: v in rows' ==> (Twice(rows', v) <==> Twice(rows, v))
    requires s.cur == 0 ==> k' == k
    ensures Partial(s, conflict, i - 1, learned', rows', k')
  {
    StepFrontier(s, conflict, i, learned, learned');
    StepEntailed(s, conflict, i, learned, learned');
    StepCounts(s, conflict, i, learned, rows, learned', rows');
    if s.cur >= 1 { StepHasRow(s, i, learned, learned', rows'); }
  }

  // ---- Adding the literals of an antecedent one by one ----

  ghost predicate FalseLit(s: State, x: Bound) {
    BoundWf(s.vars, x) && LitFalse(s.assign, x) && x.id < |s.level| && s.level[x.id] <= s.cur
  }

  ghost predicate AllFalse(s: State, c: Clause) {
    forall x :: x in c ==> FalseLit(s, x)
  }

  predicate HasVariable(c: Clause, value: nat) {
    exists p :: 0 <= p < |c| && c[p].lit.Value() == value
  }

  // A false literal whose variable is present is itself present.
  lemma PresentIsSame(s: State, c: Clause, b: Bound)
    requires TableWf(s) && AllFalse(s, c) && FalseLit(s, b)
    ensures HasVariable(c, b.lit.Value()) <==> b in c
    ensures !HasVariable(c, b.lit.Value()) ==> forall x :: x in c ==> x.id != b.id
  {
    forall p | 0 <= p < |c| && (c[p].lit.Value() == b.lit.Value() || c[p].id == b.id) ensures c[p] == b {
      assert c[p] in c;
      SameFalseLit(s, c[p], b);
    }
  }

  lemma AddedRow(s: State, c: Clause, b: Bound, v: nat)
    ensures CurRow(s, c + [b], v) <==> CurRow(s, c, v) || (b.id == v && CurRow(s, [b], v))
  {
    if CurRow(s, c, v) {
      var x :| x in c && x.id == v && v < |s.vars| && v < |s.level| && s.level[v] == s.cur;
      assert x in c + [b];
    }
    if b.id == v && CurRow(s, [b], v) { assert b in c + [b]; }
  }

  lemma SingleRow(s: State, b: Bound, v: nat)
    requires b.id < |s.vars| && b.id < |s.level|
    ensures b.id == v ==> (CurRow(s, [b], v) <==> s.level[v] == s.cur)
  {
    assert b in [b];
  }

  lemma NoRow(s: State, c: Clause, v: nat)
    requires forall x :: x in c ==> x.id != v
    ensures !CurRow(s, c, v)
  {
  }

  lemma AddedFalse(s: State, conflict: Clause, c: Clause, b: Bound)
    requires AllFalse(s, c) && FalseLit(s, b) && KeepsLower(s, conflict, c)
    ensures AllFalse(s, c + [b]) && KeepsLower(s, conflict, c + [b])
  {
  }

  lemma AddedJump(s: State, conflict: Clause, c: Clause, b: Bound, k: nat)
    requires InRange(s) && TableWf(s) && AllFalse(s, c) && FalseLit(s, b) && !HasVariable(c, b.lit.Value())
    requires KeepsLower(s, conflict, c) && JumpLevel(s, conflict, c, k)
    ensures JumpLevel(s, conflict, c + [b], if s.level[b.id] != s.cur && s.level[b.id] > k then s.level[b.id] else k)
  {
    PresentIsSame(s, c, b);
    if s.level[b.id] != s.cur {
      assert forall p :: 0 <= p < |conflict| && conflict[p].id == b.id ==> conflict[p] in c;
      assert b in c + [b];
    }
    if k > 0 {
      var x :| x in c && x.id < |s.vars| && s.level[x.id] == k < s.cur && !OccursIn(conflict, x.id);
      assert x in c + [b];
    }
  }

  // The lists of the loop after one antecedent has been added and the pivot's row dropped.
  lemma StepLists(s: State, conflict: Clause, i: nat, learned: Clause, base: Clause)
    requires InConflict(s, conflict) && IsFrontier(s, conflict, i, learned)
    requires i < |s.trail| && AtCur(s, i) && !IsDecisionAt(s, i)
    requires forall x :: x in base <==> x in learned && x.id != s.trail[i]
    ensures AllFalse(s, learned) && AllFalse(s, base) && KeepsLower(s, conflict, base)
    ensures forall q :: 0 <= q < |ReasonAt(s, i)| ==> BoundWf(s.vars, ReasonAt(s, i)[q])
    ensures forall q :: 0 <= q < |ReasonAt(s, i)| && ReasonAt(s, i)[q].id != s.trail[i] ==>
      FalseLit(s, ReasonAt(s, i)[q])
  {
    forall x | x in learned ensures FalseLit(s, x) { FrontierFalse(s, conflict, Reached(s, conflict, i), x); }
    forall q | 0 <= q < |ReasonAt(s, i)| ensures BoundWf(s.vars, ReasonAt(s, i)[q])
      ensures ReasonAt(s, i)[q].id != s.trail[i] ==> FalseLit(s, ReasonAt(s, i)[q])
    {
      var b := ReasonAt(s, i)[q];
      var _ := ReasonLit(s, i, b);
      if b.id != s.trail[i] { LevelsBounded(s, b.id); }
    }
    forall x | x in conflict && x.id < |s.level| && s.level[x.id] != s.cur ensures x in base {
      LowerKept(s, conflict, i, x);
    }
  }

  // Removing the pivot variable keeps the jump level, which lies below it.
  lemma BaseJump(s: State, conflict: Clause, i: nat, learned: Clause, base: Clause, k: nat)
    requires InRange(s) && i < |s.trail| && AtCur(s, i) && JumpLevel(s, conflict, learned, k)
    requires forall x :: x in base <==> x in learned && x.id != s.trail[i]
    ensures JumpLevel(s, conflict, base, k)
  {
  }

  // A scan that runs out has only the level's decision left to resolve on.
  lemma ScanExhausted(s: State, conflict: Clause, t: int, learned: Clause, rows: seq<nat>, v: nat, w: nat)
    requires InConflict(s, conflict) && s.cur >= 1 && IsFrontier(s, conflict, t, learned) && RowsOf(s, learned, rows)
    requires t < |s.trail| && forall j :: 0 < j <= t ==> Passed(s, conflict, j)
    requires v in rows && w in rows
    ensures v == w && v < |s.vars| && s.reason[v].None?
  {
    var a := RowIsAtPosition(s, conflict, t, learned, rows, v);
    var b := RowIsAtPosition(s, conflict, t, learned, rows, w);
    assert LevelStep(s, 0);
    assert Passed(s, conflict, a) || a == 0;
    assert Passed(s, conflict, b) || b == 0;
    if a < b { LevelsAscend(s, a, b); } else if b < a { LevelsAscend(s, b, a); }
  }

  lemma DistinctRowsDiffer(conflict: Clause, rows: seq<nat>)
    requires RowsCount(conflict, rows) && DistinctVariables(conflict) && |rows| > 1
    ensures rows[0] != rows[1]
  {
    var v := rows[0];
    assert v in rows;
    assert !Repeated(conflict, v);
  }

  // With duplicate-free clauses two current-level variables never run out of antecedents.
  lemma ScanSucceeds(s: State, conflict: Clause, t: int, learned: Clause, rows: seq<nat>)
    requires InConflict(s, conflict) && s.cur >= 1 && IsFrontier(s, conflict, t, learned) && RowsOf(s, learned, rows)
    requires |rows| > 1 && RowsCount(conflict, rows) && DistinctVariables(conflict) && t < |s.trail|
    ensures exists i :: 0 < i <= t && !IsDecisionAt(s, i) && AtCur(s, i) && s.trail[i] in rows
  {
    assert rows[0] in rows && rows[1] in rows;
    DistinctRowsDiffer(conflict, rows);
    var a := RowIsAtPosition(s, conflict, t, learned, rows, rows[0]);
    var b := RowIsAtPosition(s, conflict, t, learned, rows, rows[1]);
    var i := if a < b then b else a;
    LevelsAscend(s, if a < b then a else b, i);
  }

  // Sorting and deduplicating false literals loses none of them.
  lemma SortedSame(s: State, conflict: Clause, t: int, learned: Clause, x: Bound)
    requires InConflict(s, conflict) && IsFrontier(s, conflict, t, learned)
    ensures x in UniqueByVariable(SortByVariable(learned)) <==> x in learned
  {
    var sorted := SortByVariable(learned);
    var r := UniqueByVariable(sorted);
    if x in learned {
      var m := UniqueKeepsVariables(sorted, x);
      var y := r[m];
      UniqueIsSubset(sorted, y);
      FrontierFalse(s, conflict, Reached(s, conflict, t), x);
      FrontierFalse(s, conflict, Reached(s, conflict, t), y);
      SameFalseLit(s, x, y);
    }
    if x in r { UniqueIsSubset(sorted, x); }
  }

  lemma SameEntailed(table: seq<Clause>, c: Clause, d: Clause)
    requires Entails(table, c) && forall x :: x in c ==> x in d
    ensures Entails(table, d)
  {
    forall tau | SatisfiesTable(tau, table) ensures SatisfiesBound(tau, d) {
      assert SatisfiesBound(tau, c);
      var p :| 0 <= p < |c| && Holds(tau, c[p].lit);
      assert c[p] in d;
    }
  }

  lemma CutAtRow(s: State, conflict: Clause, t: int, learned: Clause, rows: seq<nat>, v: nat) returns (u: nat)
    requires InConflict(s, conflict) && IsFrontier(s, conflict, t, learned) && RowsOf(s, learned, rows)
    requires t < |s.trail| && v in rows && forall w :: w in rows ==> w == v
    ensures u < |s.trail| && s.trail[u] == v && AtCur(s, u)
    ensures Reached(s, conflict, u) == Reached(s, conflict, t)
    ensures OnlyCurrent(s, conflict, t, v)
  {
    u := RowIsAtPosition(s, conflict, t, learned, rows, v);
    forall b | FrontierLit(s, conflict, Reached(s, conflict, t), b) && b.id < |s.vars| && s.level[b.id] == s.cur
      ensures b.id == v
    {
      assert b in learned;
      assert CurRow(s, learned, b.id);
    }
    forall i | u < i <= t ensures !Reach(s, conflict, i) { NothingAbove(s, conflict, t, u, i); }
    ReachedCut(s, conflict, t, u);
  }

  lemma JumpLevelSame(s: State, conflict: Clause, c: Clause, d: Clause, k: nat)
    requires InRange(s) && JumpLevel(s, conflict, c, k) && forall x :: x in c <==> x in d
    ensures JumpLevel(s, conflict, d, k)
  {
  }

  // Where everything resolved was shared or repeated, the cut is where the analysis stops.
  lemma CutStops(s: State, conflict: Clause, t: int, u: nat, b: Bound)
    requires InConflict(s, conflict) && s.cur >= 1 && AllShared(s, conflict, t)
    requires u < |s.trail| && AtCur(s, u) && Reached(s, conflict, u) == Reached(s, conflict, t)
    requires OnlyCurrent(s, conflict, t, s.trail[u])
    requires FrontierLit(s, conflict, Reached(s, conflict, u), b) && b.id == s.trail[u]
    requires IsDecisionAt(s, u) || !Repeated(conflict, s.trail[u])
    ensures StopsAt(s, conflict, u)
  {
    assert OnlyCurrent(s, conflict, u, s.trail[u]);
    hide InConflict, OnlyCurrent, FrontierLit, IsUip, Shared, Repeated;
    CutIsUip(s, conflict, u, b);
  }

  lemma CutAnalysed(s: State, conflict: Clause, t: int, learned: Clause, k: nat, final: Clause, u: nat)
    requires InRange(s) && IsFrontier(s, conflict, t, learned) && JumpLevel(s, conflict, learned, k)
    requires u < |s.trail| && AtCur(s, u) && Reached(s, conflict, u) == Reached(s, conflict, t)
    requires OnlyCurrent(s, conflict, t, s.trail[u]) && StopsAt(s, conflict, u) && OccursIn(learned, s.trail[u])
    requires StrictlySorted(final) && forall x :: x in final <==> x in learned
    ensures Analysed(s, conflict, final, k, u)
  {
    JumpLevelSame(s, conflict, learned, final, k);
    OccursSame(learned, final, s.trail[u]);
    FrontierMoves(s, conflict, t, u, learned, final);
    hide StopsAt, JumpLevel, StrictlySorted, IsFrontier, OnlyCurrent, OccursIn, Reached;
  }

  lemma FrontierMoves(s: State, conflict: Clause, t: int, u: nat, learned: Clause, final: Clause)
    requires InRange(s) && IsFrontier(s, conflict, t, learned) && Reached(s, conflict, u) == Reached(s, conflict, t)
    requires u < |s.trail| && OnlyCurrent(s, conflict, t, s.trail[u])
    requires forall x :: x in final <==> x in learned
    ensures IsFrontier(s, conflict, u, final)
    ensures forall x :: x in final && x.id < |s.vars| && s.level[x.id] == s.cur ==> x.id == s.trail[u]
  {
    hide FrontierLit, Reached;
  }

  lemma OccursSame(c: Clause, d: Clause, v: nat)
    requires OccursIn(c, v) && forall x :: x in c <==> x in d
    ensures OccursIn(d, v)
  {
    var p :| 0 <= p < |c| && c[p].id == v;
    assert c[p] in d;
    var m :| 0 <= m < |d| && d[m] == c[p];
  }

  // One current-level variable left: the analysis is complete.
  lemma PartialDone(s: State, conflict: Clause, t: int, learned: Clause, rows: seq<nat>, k: nat, final: Clause)
    returns (u: nat)
    requires InConflict(s, conflict) && s.cur >= 1 && IsFrontier(s, conflict, t, learned) && RowsOf(s, learned, rows)
    requires JumpLevel(s, conflict, learned, k) && t < |s.trail|
    requires AllShared(s, conflict, t)
    requires rows != [] && (!Repeated(conflict, rows[0]) || (rows[0] < |s.vars| && s.reason[rows[0]].None?))
    requires forall w :: w in rows ==> w == rows[0]
    requires StrictlySorted(final) && forall x :: x in final <==> x in learned
    ensures Analysed(s, conflict, final, k, u)
  {
    var v := rows[0];
    assert v in rows;
    u := CutAtRow(s, conflict, t, learned, rows, v);
    var b :| b in learned && b.id == v;
    hide InConflict, JumpLevel, Repeated, AllShared, OnlyCurrent, StrictlySorted, FrontierLit, StopsAt;
    hide Reached, Analysed;
    CutStops(s, conflict, t, u, b);
    MemberOccurs(learned, b);
    CutAnalysed(s, conflict, t, learned, k, final, u);
  }

  // ---- The loop's steps, on the whole invariant ----

  // The scan from `from` has passed every position after i.
  ghost predicate ScannedTo(s: State, conflict: Clause, from: int, i: int)
    requires InRange(s)
  {
    forall j :: 0 <= i < j <= from && j < |s.trail| ==> Passed(s, conflict, j)
  }

  lemma ScanStart(s: State, conflict: Clause, t: int)
    requires InRange(s)
    ensures ScannedTo(s, conflict, t, t)
  {
  }

  lemma ScanPassesAt(s: State, conflict: Clause, t: int, learned: Clause, rows: seq<nat>, k: nat, i: nat)
    requires InConflict(s, conflict) && Partial(s, conflict, t, learned, rows, k)
    requires i < |s.trail| && i <= t && ScannedTo(s, conflict, t, i)
    requires s.reason[s.trail[i]].None? || s.level[s.trail[i]] != s.cur || s.trail[i] !in rows
    ensures i > 0 ==> ScannedTo(s, conflict, t, i - 1)
  {
    ScanPasses(s, conflict, t, learned, rows, i);
  }

  lemma ScanStopsAt(s: State, conflict: Clause, t: int, learned: Clause, rows: seq<nat>, k: nat, i: nat)
    requires InConflict(s, conflict) && Partial(s, conflict, t, learned, rows, k) && |rows| > 1
    requires i <= t < |s.trail| && ScannedTo(s, conflict, t, i)
    requires s.reason[s.trail[i]].Some? && s.level[s.trail[i]] == s.cur && s.trail[i] in rows
    ensures Resolvable(s, conflict, i, learned, rows, k)
  {
    ScanStops(s, conflict, t, learned, rows, i);
    StopIsShared(s, conflict, i, learned, rows);
  }

  lemma ScanCannotRunOut(s: State, conflict: Clause, t: int, learned: Clause, rows: seq<nat>, k: nat)
    requires InConflict(s, conflict) && s.cur >= 1 && Partial(s, conflict, t, learned, rows, k)
    requires DistinctVariables(conflict) && |rows| > 1 && t < |s.trail|
    ensures !ScannedTo(s, conflict, t, 0)
  {
    ScanSucceeds(s, conflict, t, learned, rows);
    var i :| 0 < i <= t && !IsDecisionAt(s, i) && AtCur(s, i) && s.trail[i] in rows;
    var q := RowIsAtPosition(s, conflict, t, learned, rows, s.trail[i]);
    SamePosition(s, i, q);
    assert !Passed(s, conflict, i);
  }

  // The scan has stopped at position i, and the loop invariant holds cut there.
  ghost predicate Resolvable(s: State, conflict: Clause, i: nat, learned: Clause, rows: seq<nat>, k: nat)
    requires InRange(s)
  {
    && Partial(s, conflict, i, learned, rows, k)
    && i < |s.trail| && AtCur(s, i) && !IsDecisionAt(s, i) && Reach(s, conflict, i)
    && s.trail[i] in rows
    && (Shared(s, conflict, i) || Repeated(conflict, s.trail[i]))
  }

  // What `AddAntecedent` needs at a resolvable position.
  lemma BeforeAdding(s: State, conflict: Clause, i: nat, learned: Clause, rows: seq<nat>, k: nat, base: Clause)
    requires InConflict(s, conflict) && Resolvable(s, conflict, i, learned, rows, k)
    requires forall x :: x in base <==> x in learned && x.lit.Value() != s.vars[s.trail[i]].Value()
    ensures s.reason[s.trail[i]].Some? && s.reason[s.trail[i]].value < |s.clauses|
    ensures ReasonAt(s, i) == s.clauses[s.reason[s.trail[i]].value]
    ensures AllFalse(s, learned) && AllFalse(s, base) && KeepsLower(s, conflict, base)
    ensures forall q :: 0 <= q < |ReasonAt(s, i)| ==> BoundWf(s.vars, ReasonAt(s, i)[q])
    ensures forall q :: 0 <= q < |ReasonAt(s, i)| && ReasonAt(s, i)[q].id != s.trail[i] ==>
      FalseLit(s, ReasonAt(s, i)[q])
    ensures forall x :: x in base <==> x in learned && x.id != s.trail[i]
    ensures forall v :: v in rows <==> v == s.trail[i] || CurRow(s, base, v)
    ensures JumpLevel(s, conflict, base, k)
  {
    assert Justified(s, i);
    forall x | x in learned ensures x.lit.Value() == s.vars[s.trail[i]].Value() <==> x.id == s.trail[i] {
      FrontierFalse(s, conflict, Reached(s, conflict, i), x);
    }
    StepLists(s, conflict, i, learned, base);
    BaseJump(s, conflict, i, learned, base, k);
    forall v ensures v in rows <==> v == s.trail[i] || CurRow(s, base, v) {
      BaseRows(s, i, learned, base, v);
    }
  }

  lemma BaseRows(s: State, i: nat, learned: Clause, base: Clause, v: nat)
    requires InRange(s) && i < |s.trail|
    requires forall x :: x in base <==> x in learned && x.id != s.trail[i]
    ensures CurRow(s, base, v) <==> CurRow(s, learned, v) && v != s.trail[i]
  {
  }

  lemma AfterAdding(s: State, conflict: Clause, i: nat, learned: Clause, rows: seq<nat>, k: nat,
                    base: Clause, learned': Clause, rows': seq<nat>, k': nat, left: seq<nat>)
    requires InRange(s) && InConflict(s, conflict) && VariablesWf(s.vars)
    requires Resolvable(s, conflict, i, learned, rows, k)
    requires forall v :: v in rows' ==> v < |s.vars|
    requires forall x :: x in base <==> x in learned && x.id != s.trail[i]
    requires forall x :: x in learned' <==> x in base || (x in ReasonAt(s, i) && x.id != s.trail[i])
    requires forall v :: v in rows' <==> v == s.trail[i] || CurRow(s, learned', v)
    requires forall v :: v in left <==> v in rows' && !s.vars[v].SameVariable(s.vars[s.trail[i]])
    requires JumpLevel(s, conflict, learned', k')
    requires forall v :: v in left ==> (Twice(left, v) <==> Twice(rows, v))
    requires s.cur == 0 ==> k' == k
    ensures Partial(s, conflict, i - 1, learned', left, k')
  {
    hide InConflict, Partial, Reach, Shared, JumpLevel;
    forall v: nat ensures v in left <==> CurRow(s, learned', v) {
      if v < |s.vars| && v != s.trail[i] { DistinctRows(s.vars, v, s.trail[i]); }
    }
    PartialStep(s, conflict, i, learned, rows, k, learned', left, k');
  }

  lemma DistinctRows(vars: seq<Literal>, v: nat, w: nat)
    requires VariablesWf(vars) && v < |vars| && w < |vars|
    ensures vars[v].SameVariable(vars[w]) <==> v == w
  {
  }

  // Leaving the loop above level zero: through its guard, or because the scan ran out.
  lemma LoopDone(s: State, conflict: Clause, t: int, learned: Clause, rows: seq<nat>, k: nat) returns (u: nat)
    requires InConflict(s, conflict) && s.cur >= 1 && Partial(s, conflict, t, learned, rows, k) && t < |s.trail|
    requires |rows| <= 1 || ScannedTo(s, conflict, t, 0)
    ensures Analysed(s, conflict, UniqueByVariable(SortByVariable(learned)), k, u)
  {
    hide InConflict, IsFrontier, RowsOf, JumpLevel, AllShared, Entails, Analysed;
    forall v | v in rows ensures v == rows[0] {
      if |rows| > 1 { ScanExhausted(s, conflict, t, learned, rows, v, rows[0]); }
    }
    assert rows[0] in rows;
    if |rows| > 1 {
      ScanExhausted(s, conflict, t, learned, rows, rows[0], rows[0]);
    } else {
      assert !Twice(rows, rows[0]);
    }
    forall x ensures x in UniqueByVariable(SortByVariable(learned)) <==> x in learned {
      SortedSame(s, conflict, t, learned, x);
    }
    u := PartialDone(s, conflict, t, learned, rows, k, UniqueByVariable(SortByVariable(learned)));
  }

  lemma LoopDoneSound(s: State, conflict: Clause, t: int, learned: Clause, rows: seq<nat>, k: nat)
    requires InConflict(s, conflict) && Partial(s, conflict, t, learned, rows, k)
    ensures Entails(s.clauses, UniqueByVariable(SortByVariable(learned)))
    ensures Falsified(s.assign, UniqueByVariable(SortByVariable(learned)))
    ensures s.cur == 0 ==> k == 0
  {
    var final := UniqueByVariable(SortByVariable(learned));
    forall x ensures x in final <==> x in learned { SortedSame(s, conflict, t, learned, x); }
    SameEntailed(s.clauses, learned, final);
    forall p | 0 <= p < |final| ensures LitFalse(s.assign, final[p]) {
      FrontierFalse(s, conflict, Reached(s, conflict, t), final[p]);
    }
  }
}
